/** examples/server/server.c: the growable response buffer and the template scanner. */
module Template {
  import opened Wrappers
  import opened Bytes

  const INITIAL_CAPACITY: nat := 1024

  /** struct buffer. `moved` adds up the block sizes realloc may have had to copy. */
  class Buffer {
    var data: array<Byte>
    var len: nat
    ghost var moved: nat

    ghost predicate Valid()
      reads this, data
    {
      && (data.Length == 0 ==> len == 0 && moved == 0)
      && (data.Length > 0 ==> len < data.Length && data[len] == 0 && moved < data.Length)
    }

    ghost function Contents(): seq<Byte>
      requires Valid()
      reads this, data
    {
      data[..len]
    }

    constructor ()
      ensures Valid() && Contents() == [] && fresh(data)
    {
      data := new Byte[0];
      len, moved := 0, 0;
    }

    /** The buffer holds the exact concatenation, NUL-terminated, and all growth together has moved fewer bytes than
        the final capacity. */
    method Append(bytes: seq<Byte>)
      requires Valid()
      modifies this, data
      ensures Valid() && Contents() == old(Contents()) + bytes
      ensures data == old(data) || fresh(data)
      ensures moved == old(moved) + if data == old(data) then 0 else old(data.Length)
    {
      if len + |bytes| + 1 > data.Length {
        var want := if data.Length > 0 then data.Length else INITIAL_CAPACITY;
        while want < len + |bytes| + 1
          invariant want >= INITIAL_CAPACITY || want >= data.Length > 0
          invariant want > data.Length ==> want >= 2 * data.Length
          decreases len + |bytes| + 1 - want
        {
          want := want * 2;
        }
        Grow(want);
      }
      Memcpy(data, len, bytes);
      len := len + |bytes|;
      data[len] := 0;
    }

    /** realloc to at least twice the size. */
    method Grow(want: nat)
      requires Valid() && want > len && want > data.Length && want >= 2 * data.Length
      modifies this
      ensures fresh(data) && data.Length == want && len == old(len) && data[..len] == old(data[..len])
      ensures moved == old(moved) + old(data.Length) && moved < want
    {
      moved := moved + data.Length;
      var grown := new Byte[want](_ => 0);
      Memcpy(grown, 0, data[..len]);
      assert grown[..len] == data[..len];
      data := grown;
    }
  }

  // ---- the template grammar ----

  const OPEN: Byte := 0x7b
  const CLOSE: Byte := 0x7d

  predicate PairAt(s: seq<Byte>, i: nat, c: Byte) {
    i + 1 < |s| && s[i] == c && s[i + 1] == c
  }

  ghost predicate NoPair(s: seq<Byte>, c: Byte) {
    forall i: nat :: !PairAt(s, i, c)
  }

  /** memmem for a doubled character, from index `from` on. */
  function FindPair(s: seq<Byte>, from: nat, c: Byte): (r: Option<nat>)
    ensures r.Some? ==> from <= r.value && PairAt(s, r.value, c) && forall i :: from <= i < r.value ==> !PairAt(s, i, c)
    ensures r.None? ==> forall i: nat :: from <= i ==> !PairAt(s, i, c)
    decreases |s| - from
  {
    if from >= |s| then None
    else if PairAt(s, from, c) then Some(from)
    else FindPair(s, from + 1, c)
  }

  /** Text before a `{{name}}`, and the name. */
  datatype Hole = Hole(text: seq<Byte>, name: seq<Byte>)

  datatype Page = Page(holes: seq<Hole>, tail: seq<Byte>)

  function Source(h: Hole): seq<Byte> {
    h.text + [OPEN, OPEN] + h.name + [CLOSE, CLOSE]
  }

  function Unparse(p: Page): seq<Byte>
    decreases |p.holes|
  {
    if p.holes == [] then p.tail else Source(p.holes[0]) + Unparse(Page(p.holes[1..], p.tail))
  }

  /** Leftmost open, first close: no earlier `{{` opens the hole, no earlier `}}` closes it. */
  ghost predicate Proper(h: Hole) {
    NoPair(h.text + [OPEN], OPEN) && NoPair(h.name + [CLOSE], CLOSE)
  }

  ghost predicate HasHole(s: seq<Byte>) {
    exists o: nat, c: nat :: o + 2 <= c && PairAt(s, o, OPEN) && PairAt(s, c, CLOSE)
  }

  ghost predicate Grammatical(p: Page) {
    (forall i :: 0 <= i < |p.holes| ==> Proper(p.holes[i])) && !HasHole(p.tail)
  }

  /** The scan of render: the open and the close of the next hole at or after `i`. */
  function NextHole(html: seq<Byte>, i: nat): (r: Option<(nat, nat)>)
    ensures r.Some? ==> i <= r.value.0 && r.value.0 + 2 <= r.value.1 && r.value.1 + 2 <= |html|
  {
    var open :- FindPair(html, i, OPEN);
    var close :- FindPair(html, open, CLOSE);
    assert close != open && close != open + 1;
    Some((open, close))
  }

  function ParseFrom(html: seq<Byte>, i: nat): Page
    requires i <= |html|
    decreases |html| - i
  {
    var next := NextHole(html, i);
    if next.None? then Page([], html[i..]) else
      var (open, close) := next.value;
      var rest := ParseFrom(html, close + 2);
      Page([Hole(html[i..open], html[open + 2..close])] + rest.holes, rest.tail)
  }

  // ---- rendering ----

  /** A template variable and its query's answer; NULL is None. */
  datatype Var = Var(name: seq<Byte>, value: Option<seq<Byte>>)

  /** The first variable of that name decides. */
  function ValueOf(vars: seq<Var>, name: seq<Byte>): Option<seq<Byte>> {
    if vars == [] then None
    else if vars[0].name == name then vars[0].value
    else ValueOf(vars[1..], name)
  }

  function Filled(h: Hole, vars: seq<Var>): seq<Byte> {
    var v := ValueOf(vars, h.name);
    if v.Some? then h.text + v.value else Source(h)
  }

  /** The variables as their queries answer at the k-th hole; between two holes another worker may have written. */
  type Answers = nat -> seq<Var>

  /** Every hole, from number k on, filled once; what a value contains is not scanned again. */
  function Rendered(p: Page, db: Answers, k: nat): seq<Byte>
    decreases |p.holes|
  {
    if p.holes == [] then p.tail else Filled(p.holes[0], db(k)) + Rendered(Page(p.holes[1..], p.tail), db, k + 1)
  }

  method FindValue(vars: seq<Var>, name: seq<Byte>) returns (value: Option<seq<Byte>>)
    ensures value == ValueOf(vars, name)
  {
    for v := 0 to |vars|
      invariant ValueOf(vars, name) == ValueOf(vars[v..], name)
    {
      if vars[v].name == name {
        return vars[v].value;
      }
      assert vars[v..][1..] == vars[v + 1..];
    }
    return None;
  }

  method Render(html: seq<Byte>, db: Answers) returns (out: Buffer)
    ensures fresh(out) && fresh(out.data) && out.Valid()
    ensures out.Contents() == Rendered(ParseFrom(html, 0), db, 0)
  {
    hide NextHole, ParseFrom, ValueOf, Rendered;
    out := new Buffer();
    var i, k := 0, 0;
    while i < |html|
      invariant i <= |html| && fresh(out) && fresh(out.data) && out.Valid()
      invariant out.Contents() + Rendered(ParseFrom(html, i), db, k) == Rendered(ParseFrom(html, 0), db, 0)
      decreases |html| - i
    {
      var next := NextHole(html, i);
      if next.None? {
        break;
      }
      var (open, close) := next.value;
      ghost var before := out.Contents();
      out.Append(html[i..open]);
      var value := FindValue(db(k), html[open + 2..close]);
      if value.Some? {
        out.Append(value.value);
      } else {
        out.Append(html[open..close + 2]);
      }
      RenderStep(html, db, k, i, before, out.Contents());
      i, k := close + 2, k + 1;
    }
    NoMoreHoles(html, db, k, i);
    out.Append(html[i..]);
  }

  lemma {:induction false} NoMoreHoles(html: seq<Byte>, db: Answers, k: nat, i: nat)
    requires i <= |html| && (i == |html| || NextHole(html, i).None?)
    ensures Rendered(ParseFrom(html, i), db, k) == html[i..]
  {
  }

  lemma {:induction false} ParseStep(html: seq<Byte>, i: nat)
    requires i <= |html| && NextHole(html, i).Some?
    ensures var (open, close) := NextHole(html, i).value;
      var page := ParseFrom(html, i);
      && page.holes != [] && page.holes[0] == Hole(html[i..open], html[open + 2..close])
      && Page(page.holes[1..], page.tail) == ParseFrom(html, close + 2)
  {
    hide NextHole;
    var (open, close) := NextHole(html, i).value;
    var rest := ParseFrom(html, close + 2);
    var page := ParseFrom(html, i);
    assert page.holes[1..] == rest.holes;
  }

  lemma {:induction false} RenderStep(html: seq<Byte>, db: Answers, k: nat, i: nat, before: seq<Byte>, after: seq<Byte>)
    requires i <= |html| && NextHole(html, i).Some?
    requires var (open, close) := NextHole(html, i).value;
      var v := ValueOf(db(k), html[open + 2..close]);
      after == before + html[i..open] + if v.Some? then v.value else html[open..close + 2]
    ensures after + Rendered(ParseFrom(html, NextHole(html, i).value.1 + 2), db, k + 1) ==
            before + Rendered(ParseFrom(html, i), db, k)
  {
    hide NextHole, ParseFrom, ValueOf, Source;
    var (open, close) := NextHole(html, i).value;
    var page := ParseFrom(html, i);
    ParseStep(html, i);
    SourceIsSlice(html, i);
    assert html[i..close + 2] == html[i..open] + html[open..close + 2];
    assert after == before + Filled(page.holes[0], db(k));
  }

  lemma {:induction false} SourceIsSlice(html: seq<Byte>, i: nat)
    requires i <= |html| && NextHole(html, i).Some?
    ensures var (open, close) := NextHole(html, i).value;
      Source(Hole(html[i..open], html[open + 2..close])) == html[i..close + 2]
  {
    var (open, close) := NextHole(html, i).value;
    assert html[open..open + 2] == [OPEN, OPEN] && html[close..close + 2] == [CLOSE, CLOSE];
  }

  // ---- the scanner against the grammar ----

  lemma {:induction false} ParseUnparses(html: seq<Byte>, i: nat)
    requires i <= |html|
    ensures Unparse(ParseFrom(html, i)) == html[i..]
    decreases |html| - i
  {
    hide NextHole, ParseFrom;
    if NextHole(html, i).Some? {
      var close := NextHole(html, i).value.1;
      ParseStep(html, i);
      SourceIsSlice(html, i);
      ParseUnparses(html, close + 2);
      assert html[i..] == html[i..close + 2] + html[close + 2..];
    } else {
      NoHolesLeft(html, i);
    }
  }

  lemma {:induction false} NoHolesLeft(html: seq<Byte>, i: nat)
    requires i <= |html| && NextHole(html, i).None?
    ensures ParseFrom(html, i) == Page([], html[i..]) && !HasHole(html[i..])
  {
    var tail := html[i..];
    forall o: nat, c: nat | o + 2 <= c && PairAt(tail, o, OPEN) && PairAt(tail, c, CLOSE)
      ensures false
    {
      assert PairAt(html, i + o, OPEN) && PairAt(html, i + c, CLOSE);
    }
  }

  lemma {:induction false} NextHoleIsProper(html: seq<Byte>, i: nat)
    requires i <= |html| && NextHole(html, i).Some?
    ensures var (open, close) := NextHole(html, i).value; Proper(Hole(html[i..open], html[open + 2..close]))
  {
    var (open, close) := NextHole(html, i).value;
    var text, name := html[i..open] + [OPEN], html[open + 2..close] + [CLOSE];
    forall k: nat
      ensures !PairAt(text, k, OPEN) && !PairAt(name, k, CLOSE)
    {
      assert PairAt(text, k, OPEN) ==> PairAt(html, i + k, OPEN);
      assert PairAt(name, k, CLOSE) ==> PairAt(html, open + 2 + k, CLOSE);
    }
  }

  lemma {:induction false} ParseGrammatical(html: seq<Byte>, i: nat)
    requires i <= |html|
    ensures Grammatical(ParseFrom(html, i))
    decreases |html| - i
  {
    hide NextHole, ParseFrom, Proper, HasHole;
    if NextHole(html, i).Some? {
      var close := NextHole(html, i).value.1;
      ParseStep(html, i);
      NextHoleIsProper(html, i);
      ParseGrammatical(html, close + 2);
      var page := ParseFrom(html, i);
      forall k | 0 <= k < |page.holes|
        ensures Proper(page.holes[k])
      {
        assert k > 0 ==> page.holes[k] == page.holes[1..][k - 1];
      }
    } else {
      NoHolesLeft(html, i);
    }
  }

  /** The scan finds the first hole of any proper decomposition. */
  lemma {:induction false} HoleIsFound(html: seq<Byte>, i: nat, h: Hole, rest: seq<Byte>)
    requires i <= |html| && html[i..] == Source(h) + rest && Proper(h)
    ensures NextHole(html, i) == Some((i + |h.text|, i + |h.text| + 2 + |h.name|))
  {
    var s := Source(h) + rest;
    var o := |h.text|;
    var c := o + 2 + |h.name|;
    assert forall k: nat :: k < |s| ==> html[i + k] == s[k];
    assert PairAt(html, i + o, OPEN) && PairAt(html, i + c, CLOSE);
    forall k | i <= k < i + o
      ensures !PairAt(html, k, OPEN)
    {
      assert !PairAt(h.text + [OPEN], k - i, OPEN);
    }
    forall k | i + o <= k < i + c
      ensures !PairAt(html, k, CLOSE)
    {
      if k >= i + o + 2 {
        assert !PairAt(h.name + [CLOSE], k - i - o - 2, CLOSE);
      }
    }
  }

  lemma {:induction false} NoHoleIsFound(html: seq<Byte>, i: nat)
    requires i <= |html| && !HasHole(html[i..])
    ensures NextHole(html, i).None?
  {
    if NextHole(html, i).Some? {
      var (open, close) := NextHole(html, i).value;
      assert PairAt(html[i..], open - i, OPEN) && PairAt(html[i..], close - i, CLOSE);
      assert false;
    }
  }

  /** Leftmost open, first close determines the page: the scan's decomposition is the only grammatical one. */
  lemma {:induction false} ParseUnique(html: seq<Byte>, i: nat, p: Page)
    requires i <= |html| && Grammatical(p) && Unparse(p) == html[i..]
    ensures ParseFrom(html, i) == p
    decreases |p.holes|
  {
    hide NextHole, ParseFrom, Proper, HasHole;
    if p.holes == [] {
      NoHoleIsFound(html, i);
      NoHolesLeft(html, i);
    } else {
      var h, rest := p.holes[0], Page(p.holes[1..], p.tail);
      HoleIsFound(html, i, h, Unparse(rest));
      ParseStep(html, i);
      var (open, close) := NextHole(html, i).value;
      SourceIsSlice(html, i);
      assert html[close + 2..] == html[i..][close + 2 - i..] == Unparse(rest);
      ParseUnique(html, close + 2, rest);
      var page := ParseFrom(html, i);
      assert html[i..open] == html[i..][..open - i] == h.text;
      assert html[open + 2..close] == html[i..][open + 2 - i..close - i] == h.name;
      assert page.holes == [page.holes[0]] + page.holes[1..];
    }
  }

  /** What render computes on any page written in the grammar: each hole filled once, by the answer of the first
      variable of its name if there is one, and everything else verbatim. */
  lemma {:induction false} RenderOfGrammatical(p: Page, db: Answers)
    requires Grammatical(p)
    ensures Rendered(ParseFrom(Unparse(p), 0), db, 0) == Rendered(p, db, 0)
  {
    hide ParseFrom, Grammatical;
    assert Unparse(p)[0..] == Unparse(p);
    ParseUnique(Unparse(p), 0, p);
  }

  ghost predicate NoValues(p: Page, db: Answers, k: nat) {
    forall i :: 0 <= i < |p.holes| ==> ValueOf(db(k + i), p.holes[i].name).None?
  }

  lemma {:induction false} NoValuesNoChange(p: Page, db: Answers, k: nat)
    requires NoValues(p, db, k)
    ensures Rendered(p, db, k) == Unparse(p)
    decreases |p.holes|
  {
    hide ValueOf;
    if p.holes != [] {
      var rest := Page(p.holes[1..], p.tail);
      forall i | 0 <= i < |rest.holes|
        ensures ValueOf(db(k + 1 + i), rest.holes[i].name).None?
      {
        assert rest.holes[i] == p.holes[i + 1] && k + 1 + i == k + (i + 1);
      }
      NoValuesNoChange(rest, db, k + 1);
    }
  }

  /** When no name on the page has a value, render returns its input. */
  lemma {:induction false} UnknownNamesStay(html: seq<Byte>, db: Answers)
    requires NoValues(ParseFrom(html, 0), db, 0)
    ensures Rendered(ParseFrom(html, 0), db, 0) == html
  {
    hide ValueOf, ParseFrom, NoValues;
    NoValuesNoChange(ParseFrom(html, 0), db, 0);
    ParseUnparses(html, 0);
    assert html[0..] == html;
  }

  // ---- rendering, on bytes ----

  /** The first variable of a name decides; a name no variable has finds nothing. */
  lemma {:induction false} FirstVariable(vars: seq<Var>, name: seq<Byte>, i: nat)
    requires i <= |vars| && forall j :: 0 <= j < i ==> vars[j].name != name
    ensures i < |vars| && vars[i].name == name ==> ValueOf(vars, name) == vars[i].value
    ensures i == |vars| ==> ValueOf(vars, name) == None
    decreases i
  {
    if i > 0 {
      FirstVariable(vars[1..], name, i - 1);
    }
  }

  /** A page is parsed alike wherever it stands. */
  lemma {:induction false} ParseRest(html: seq<Byte>, i: nat, rest: seq<Byte>)
    requires i <= |html| && html[i..] == rest
    ensures ParseFrom(html, i) == ParseFrom(rest, 0)
  {
    hide ParseFrom, Grammatical;
    ParseGrammatical(rest, 0);
    ParseUnparses(rest, 0);
    assert rest[0..] == rest;
    ParseUnique(html, i, ParseFrom(rest, 0));
  }

  /** Rendering from hole number k on: text up to the first `{{` stays, the name up to the next `}}` is replaced by its
      value, or left with its braces when it has none, and the rest is rendered from hole number k + 1 on. */
  lemma {:induction false} RenderHole(text: seq<Byte>, name: seq<Byte>, rest: seq<Byte>, db: Answers, k: nat)
    requires NoPair(text + [0x7b], 0x7b) && NoPair(name + [0x7d], 0x7d)
    ensures var html, value := text + [0x7b, 0x7b] + name + [0x7d, 0x7d] + rest, ValueOf(db(k), name);
      Rendered(ParseFrom(html, 0), db, k) ==
      text + (if value.Some? then value.value else [0x7b, 0x7b] + name + [0x7d, 0x7d])
      + Rendered(ParseFrom(rest, 0), db, k + 1)
  {
    hide ParseFrom, NextHole, ValueOf, NoPair;
    var html, h := text + [0x7b, 0x7b] + name + [0x7d, 0x7d] + rest, Hole(text, name);
    assert html[0..] == html && html == Source(h) + rest;
    HoleIsFound(html, 0, h, rest);
    ParseStep(html, 0);
    var (open, close) := NextHole(html, 0).value;
    assert html[0..open] == text && html[open + 2..close] == name && html[close + 2..] == rest;
    ParseRest(html, close + 2, rest);
    var page := ParseFrom(html, 0);
    assert page.holes[0] == h && Page(page.holes[1..], page.tail) == ParseFrom(rest, 0);
    RenderFirst(page, h, ParseFrom(rest, 0), db, k);
  }

  lemma {:induction false} RenderFirst(page: Page, h: Hole, rest: Page, db: Answers, k: nat)
    requires page.holes != [] && page.holes[0] == h && Page(page.holes[1..], page.tail) == rest
    ensures var value := ValueOf(db(k), h.name);
      Rendered(page, db, k) ==
      h.text + (if value.Some? then value.value else [0x7b, 0x7b] + h.name + [0x7d, 0x7d]) + Rendered(rest, db, k + 1)
  {
    hide ValueOf;
    var value := ValueOf(db(k), h.name);
    assert h.text + [0x7b, 0x7b] + h.name + [0x7d, 0x7d] == h.text + ([0x7b, 0x7b] + h.name + [0x7d, 0x7d]);
  }

  /** A text in which no `{{` is followed by a `}}` is its own rendering. */
  lemma {:induction false} RenderText(html: seq<Byte>, db: Answers, k: nat)
    requires !HasHole(html)
    ensures Rendered(ParseFrom(html, 0), db, k) == html
  {
    hide ParseFrom, HasHole;
    assert html[0..] == html;
    NoHoleIsFound(html, 0);
    NoHolesLeft(html, 0);
  }
}
