/** The global export table of loader/selfld.c: a list that only grows at its head. */
module Exports {

  datatype Export = Export(name: string, addr: nat)

  /** struct sym. A node never changes once it is linked in. */
  class Sym {
    const name: string
    const addr: nat
    const next: Sym?
    ghost const contents: seq<Export>

    ghost predicate Valid()
      decreases |contents|
    {
      && contents != [] && contents[0] == Export(name, addr)
      && if next == null then |contents| == 1 else next.contents == contents[1..] && next.Valid()
    }

    constructor (name: string, addr: nat, next: Sym?)
      requires next != null ==> next.Valid()
      ensures Valid() && contents == [Export(name, addr)] + ContentsOf(next)
    {
      this.name := name;
      this.addr := addr;
      this.next := next;
      this.contents := [Export(name, addr)] + ContentsOf(next);
    }
  }

  ghost function ContentsOf(s: Sym?): seq<Export> {
    if s == null then [] else s.contents
  }

  /** g_syms. */
  class ExportTable {
    var syms: Sym?

    ghost predicate Valid()
      reads this
    {
      syms != null ==> syms.Valid()
    }

    /** The exports, newest first. */
    ghost function Contents(): seq<Export>
      reads this
    {
      ContentsOf(syms)
    }

    constructor ()
      ensures Valid() && Contents() == []
    {
      syms := null;
    }

    method Add(name: string, addr: nat)
      requires Valid()
      modifies this
      ensures Valid() && Contents() == [Export(name, addr)] + old(Contents())
    {
      var s := new Sym(name, addr, syms);
      syms := s;
    }

    /** export_find: 0 when no node has the name. */
    method Find(name: string) returns (addr: nat)
      requires Valid()
      ensures addr == Lookup(Contents(), name)
    {
      var s := syms;
      while s != null
        invariant s != null ==> s.Valid()
        invariant Lookup(ContentsOf(s), name) == Lookup(Contents(), name)
        decreases |ContentsOf(s)|
      {
        if s.name == name {
          return s.addr;
        }
        s := s.next;
      }
      return 0;
    }
  }

  /** Newest-first lookup. */
  function Lookup(list: seq<Export>, name: string): nat {
    if list == [] then 0
    else if list[0].name == name then list[0].addr
    else Lookup(list[1..], name)
  }

  /** DESIGN.md's rule: breadth-first scope order, first definer wins. The oldest export is the last of the list. */
  function ScopeLookup(list: seq<Export>, name: string): nat {
    if list == [] then 0
    else
      var oldest := list[|list| - 1];
      if oldest.name == name then oldest.addr else ScopeLookup(list[..|list| - 1], name)
  }

  // ---- the list refines a map that later exports override ----

  function ExportMap(list: seq<Export>): map<string, nat> {
    if list == [] then map[] else ExportMap(list[1..])[list[0].name := list[0].addr]
  }

  function At(m: map<string, nat>, name: string): nat {
    if name in m then m[name] else 0
  }

  lemma {:induction false} LookupIsMap(list: seq<Export>, name: string)
    ensures Lookup(list, name) == At(ExportMap(list), name)
  {
    if list != [] {
      LookupIsMap(list[1..], name);
    }
  }

  lemma {:induction false} MapOfConcat(newer: seq<Export>, older: seq<Export>)
    ensures ExportMap(newer + older) == ExportMap(older) + ExportMap(newer)
  {
    if newer == [] {
      assert newer + older == older;
    } else {
      MapOfConcat(newer[1..], older);
      assert (newer + older)[1..] == newer[1..] + older;
    }
  }

  /** Preloading is an exact override: with the preloads' exports added last, a name binds to the preload that exports
      it, and every other name binds as before. */
  lemma {:induction false} PreloadOverrides(preloads: seq<Export>, closure: seq<Export>, name: string)
    ensures Lookup(preloads + closure, name) ==
            if name in ExportMap(preloads) then Lookup(preloads, name) else Lookup(closure, name)
  {
    MapOfConcat(preloads, closure);
    LookupIsMap(preloads + closure, name);
    LookupIsMap(preloads, name);
    LookupIsMap(closure, name);
  }

  // ---- newest-first against scope order ----

  ghost predicate NamesUnique(list: seq<Export>) {
    forall i, j :: 0 <= i < j < |list| ==> list[i].name != list[j].name
  }

  /** Two definitions of a name live at two addresses. */
  ghost predicate DefinersApart(list: seq<Export>) {
    forall i, j :: 0 <= i < j < |list| && list[i].name == list[j].name ==> list[i].addr != list[j].addr
  }

  lemma {:induction false} LookupNewest(list: seq<Export>, name: string, i: nat)
    requires i < |list| && list[i].name == name && forall j :: 0 <= j < i ==> list[j].name != name
    ensures Lookup(list, name) == list[i].addr
  {
    if i > 0 {
      LookupNewest(list[1..], name, i - 1);
    }
  }

  lemma {:induction false} LookupOldest(list: seq<Export>, name: string, i: nat)
    requires i < |list| && list[i].name == name && forall j :: i < j < |list| ==> list[j].name != name
    ensures ScopeLookup(list, name) == list[i].addr
  {
    if i < |list| - 1 {
      LookupOldest(list[..|list| - 1], name, i);
    }
  }

  lemma {:induction false} LookupAbsent(list: seq<Export>, name: string)
    requires forall j :: 0 <= j < |list| ==> list[j].name != name
    ensures Lookup(list, name) == 0 && ScopeLookup(list, name) == 0
  {
    if list != [] {
      LookupAbsent(list[1..], name);
      LookupAbsent(list[..|list| - 1], name);
    }
  }

  /** The first and the last definer of a name. */
  lemma {:induction false} Ends(list: seq<Export>, name: string) returns (first: nat, last: nat)
    requires exists j :: 0 <= j < |list| && list[j].name == name
    ensures first <= last < |list| && list[first].name == name && list[last].name == name
    ensures forall j :: 0 <= j < first || last < j < |list| ==> list[j].name != name
  {
    first, last := 0, |list| - 1;
    while list[first].name != name
      invariant first < |list| && forall j :: 0 <= j < first ==> list[j].name != name
      invariant exists j :: first <= j < |list| && list[j].name == name
      decreases |list| - first
    {
      first := first + 1;
    }
    while list[last].name != name
      invariant first <= last < |list| && forall j :: last < j < |list| ==> list[j].name != name
      decreases last
    {
      last := last - 1;
    }
  }

  /** No earlier, that is newer, node has the name of node i. */
  predicate Newest(list: seq<Export>, i: nat)
    requires i < |list|
  {
    forall j :: 0 <= j < i ==> list[j].name != list[i].name
  }

  predicate Oldest(list: seq<Export>, i: nat)
    requires i < |list|
  {
    forall j :: i < j < |list| ==> list[j].name != list[i].name
  }

  /** The newest and the oldest definition of every name have one address: the name is defined once, or the second
      definition is an alias of the first. */
  ghost predicate EndsAgree(list: seq<Export>) {
    forall i, j :: 0 <= i < j < |list| && Newest(list, i) && Oldest(list, j) && list[i].name == list[j].name ==>
      list[i].addr == list[j].addr
  }

  lemma {:induction false} ScopeOrderOfName(list: seq<Export>, name: string)
    requires EndsAgree(list)
    ensures Lookup(list, name) == ScopeLookup(list, name)
  {
    if exists j :: 0 <= j < |list| && list[j].name == name {
      var first, last := Ends(list, name);
      LookupNewest(list, name, first);
      LookupOldest(list, name, last);
      assert Newest(list, first) && Oldest(list, last);
    } else {
      LookupAbsent(list, name);
    }
  }

  /** For any list: newest-first lookup agrees with breadth-first scope order on every name exactly when the ends of
      every name agree; with distinct definitions at distinct addresses, exactly when no name is exported twice. */
  lemma {:induction false} ScopeOrderAgrees(list: seq<Export>)
    ensures (forall name :: Lookup(list, name) == ScopeLookup(list, name)) <==> EndsAgree(list)
    ensures NamesUnique(list) ==> EndsAgree(list)
    ensures DefinersApart(list) && EndsAgree(list) ==> NamesUnique(list)
  {
    hide Lookup, ScopeLookup;
    if EndsAgree(list) {
      forall name
        ensures Lookup(list, name) == ScopeLookup(list, name)
      {
        ScopeOrderOfName(list, name);
      }
    } else {
      var i, j :| 0 <= i < j < |list| && Newest(list, i) && Oldest(list, j) && list[i].name == list[j].name
        && list[i].addr != list[j].addr;
      LookupNewest(list, list[i].name, i);
      LookupOldest(list, list[i].name, j);
    }
    if !NamesUnique(list) {
      var i, j :| 0 <= i < j < |list| && list[i].name == list[j].name;
      var first, last := Ends(list, list[i].name);
      assert Newest(list, first) && Oldest(list, last);
    }
  }

  /** When every definition has an address, a name is found exactly when it is exported. */
  lemma {:induction false} LookupFinds(list: seq<Export>, name: string)
    requires forall e :: e in list ==> e.addr != 0
    ensures Lookup(list, name) != 0 <==> exists e :: e in list && e.name == name
  {
    if list != [] {
      LookupFinds(list[1..], name);
      assert list == [list[0]] + list[1..];
    }
  }

  lemma {:induction false} LookupBelow(list: seq<Export>, name: string, limit: nat)
    requires limit > 0 && forall e :: e in list ==> e.addr < limit
    ensures Lookup(list, name) < limit && ScopeLookup(list, name) < limit
  {
    if list != [] {
      LookupBelow(list[1..], name, limit);
      LookupBelow(list[..|list| - 1], name, limit);
    }
  }

  // ---- one list after another ----

  ghost predicate HasName(list: seq<Export>, name: string) {
    exists e :: e in list && e.name == name
  }

  lemma {:induction false} HasNameConcat(newer: seq<Export>, older: seq<Export>, name: string)
    ensures HasName(newer + older, name) <==> HasName(newer, name) || HasName(older, name)
  {
  }

  lemma {:induction false} NamelessLookup(list: seq<Export>, name: string)
    requires !HasName(list, name)
    ensures Lookup(list, name) == 0 && ScopeLookup(list, name) == 0
  {
    forall j | 0 <= j < |list|
      ensures list[j].name != name
    {
      assert list[j] in list;
    }
    LookupAbsent(list, name);
  }

  /** Newest-first lookup asks the newer part first. */
  lemma {:induction false} LookupConcat(newer: seq<Export>, older: seq<Export>, name: string)
    ensures Lookup(newer + older, name) == if HasName(newer, name) then Lookup(newer, name) else Lookup(older, name)
  {
    if newer == [] {
      assert newer + older == older;
    } else {
      LookupConcat(newer[1..], older, name);
      assert newer == [newer[0]] + newer[1..] && (newer + older)[1..] == newer[1..] + older;
      assert HasName(newer, name) <==> newer[0].name == name || HasName(newer[1..], name);
    }
  }

  /** Scope order asks the older part first. */
  lemma {:induction false} ScopeConcat(newer: seq<Export>, older: seq<Export>, name: string)
    ensures ScopeLookup(newer + older, name) ==
            if HasName(older, name) then ScopeLookup(older, name) else ScopeLookup(newer, name)
  {
    if older == [] {
      assert newer + older == newer;
    } else {
      var n, both := |older| - 1, newer + older;
      ScopeConcat(newer, older[..n], name);
      assert older == older[..n] + [older[n]] && both[..|both| - 1] == newer + older[..n];
      assert HasName(older, name) <==> older[n].name == name || HasName(older[..n], name);
    }
  }
}
