/** The initial process stack of loader/native.c and loader/selfld.c, and the program's view of it (AMD64 psABI,
    section 3.4.1). */
module InitialStack {
  import opened Wrappers
  import opened Bytes
  import opened AddressSpace

  /** A C string without its terminator. */
  type CString = s: seq<Byte> | 0 !in s

  datatype AuxEntry = Aux(typ: nat, val: nat)

  const AT_NULL := 0
  const AT_PHDR := 3
  const AT_PHENT := 4
  const AT_PHNUM := 5
  const AT_PAGESZ := 6
  const AT_BASE := 7
  const AT_FLAGS := 8
  const AT_ENTRY := 9
  const AT_UID := 11
  const AT_EUID := 12
  const AT_GID := 13
  const AT_EGID := 14
  const AT_PLATFORM := 15
  const AT_HWCAP := 16
  const AT_CLKTCK := 17
  const AT_SECURE := 23
  const AT_RANDOM := 25
  const AT_HWCAP2 := 26
  const AT_EXECFN := 31
  const AT_SYSINFO_EHDR := 33

  // ---- the program's side: reading a stack ----

  function WordAt(mem: seq<Byte>, i: nat): Option<nat> {
    if i + 8 <= |mem| then Some(Decode(mem[i..i + 8])) else None
  }

  function StringAt(mem: seq<Byte>, i: nat): Option<seq<Byte>>
    decreases |mem| - i
  {
    if i >= |mem| then None
    else if mem[i] == 0 then Some([])
    else
      var rest :- StringAt(mem, i + 1);
      Some([mem[i]] + rest)
  }

  /** A NULL-terminated vector of string pointers at index i: the strings, and the index behind the NULL. */
  function StringsAt(mem: seq<Byte>, base: nat, i: nat): Option<(seq<seq<Byte>>, nat)>
    decreases |mem| - i
  {
    var ptr :- WordAt(mem, i);
    if ptr == 0 then Some(([], i + 8))
    else if ptr < base then None
    else
      var s :- StringAt(mem, ptr - base);
      var rest :- StringsAt(mem, base, i + 8);
      Some(([s] + rest.0, rest.1))
  }

  function AuxAt(mem: seq<Byte>, i: nat): Option<seq<AuxEntry>>
    decreases |mem| - i
  {
    var typ :- WordAt(mem, i);
    var val :- WordAt(mem, i + 8);
    if typ == AT_NULL then Some([])
    else
      var rest :- AuxAt(mem, i + 16);
      Some([Aux(typ, val)] + rest)
  }

  datatype Startup = Startup(argc: nat, argv: seq<seq<Byte>>, envp: seq<seq<Byte>>, auxv: seq<AuxEntry>)

  /** What a C startup routine finds at stack pointer `sp` of a stack that occupies addresses base and up. */
  function ReadStack(mem: seq<Byte>, base: nat, sp: nat): Option<Startup>
    requires sp >= base
  {
    var argc :- WordAt(mem, sp - base);
    var argv :- StringsAt(mem, base, sp - base + 8);
    var envp :- StringsAt(mem, base, argv.1);
    var auxv :- AuxAt(mem, envp.1);
    Some(Startup(argc, argv.0, envp.0, auxv))
  }

  // ---- the loader's side: building it ----

  function StringBytes(strs: seq<CString>): nat {
    if strs == [] then 0 else StringBytes(strs[..|strs| - 1]) + |strs[|strs| - 1]| + 1
  }

  function AuxWords(aux: seq<AuxEntry>): (ws: seq<nat>)
    ensures |ws| == 2 * |aux|
  {
    if aux == [] then [] else [aux[0].typ, aux[0].val] + AuxWords(aux[1..])
  }

  /** `x & ~15`. */
  function Align16(x: nat): (y: nat)
    ensures y % 16 == 0 && y <= x < y + 16
  {
    x - x % 16
  }

  function WordBytes(ws: seq<nat>): (bs: seq<Byte>)
    ensures |bs| == 8 * |ws|
  {
    if ws == [] then [] else WordBytes(ws[..|ws| - 1]) + Encode(ws[|ws| - 1], 8)
  }

  /** argc, the argv pointers and NULL, the envp pointers and NULL, the auxiliary vector. */
  function Vector(argp: seq<nat>, envpp: seq<nat>, aux: seq<AuxEntry>): seq<nat> {
    [|argp|] + argp + [0] + envpp + [0] + AuxWords(aux)
  }

  /** `bs` lies at address `a` of a stack whose used part starts at index p. */
  ghost predicate Holds(mem: seq<Byte>, base: nat, p: nat, a: nat, bs: seq<Byte>) {
    && base + p <= a && a + |bs| <= base + |mem|
    && mem[a - base..a - base + |bs|] == bs
  }

  ghost predicate HoldsAll(mem: seq<Byte>, base: nat, p: nat, ptrs: seq<nat>, strs: seq<CString>) {
    && |ptrs| == |strs|
    && forall i :: 0 <= i < |strs| ==> Holds(mem, base, p, ptrs[i], strs[i] + [0])
  }

  /** struct stackbuf over an anonymous mapping at `base`; `p` is the string cursor as an index. */
  class StackBuf {
    const base: nat
    const mem: array<Byte>
    var p: nat

    ghost predicate Valid()
      reads this
    {
      base > 0 && base % PAGE == 0 && base + mem.Length < WORD && p <= mem.Length
    }

    constructor (base: nat, size: nat)
      requires base > 0 && base % PAGE == 0 && base + size < WORD
      ensures Valid() && this.base == base && mem.Length == size && p == size && fresh(mem)
    {
      this.base := base;
      mem := new Byte[size](_ => 0);
      p := size;
    }

    method PushBytes(bs: seq<Byte>) returns (a: nat)
      requires Valid() && |bs| <= p
      modifies this`p, mem
      ensures Valid() && p == old(p) - |bs| && a == base + p
      ensures Holds(mem[..], base, p, a, bs) && mem[old(p)..] == old(mem[p..])
    {
      p := p - |bs|;
      Memcpy(mem, p, bs);
      a := base + p;
    }

    method PushStrings(strs: seq<CString>) returns (ptrs: seq<nat>)
      requires Valid() && StringBytes(strs) <= p
      modifies this`p, mem
      ensures Valid() && p == old(p) - StringBytes(strs)
      ensures HoldsAll(mem[..], base, p, ptrs, strs)
      ensures mem[old(p)..] == old(mem[p..])
    {
      ptrs := [];
      for i := 0 to |strs|
        invariant Valid() && StringBytes(strs[..i]) <= StringBytes(strs) && p == old(p) - StringBytes(strs[..i])
        invariant HoldsAll(mem[..], base, p, ptrs, strs[..i])
        invariant mem[old(p)..] == old(mem[p..])
      {
        assert strs[..i + 1][..i] == strs[..i];
        StringBytesPrefix(strs, i + 1);
        ghost var before, q := mem[..], p;
        var a := PushBytes(strs[i] + [0]);
        HoldsAllAbove(before, mem[..], base, q, p, ptrs, strs[..i]);
        assert Holds(mem[..], base, p, a, strs[i] + [0]);
        ptrs := ptrs + [a];
      }
      assert strs[..|strs|] == strs;
    }

    /** sp = (p - 8 * words) & ~15, then v[k++] = word for every word. */
    method LayWords(words: seq<nat>) returns (sp: nat)
      requires Valid() && 8 * |words| + 15 <= p
      modifies mem
      ensures sp % 16 == 0 && base <= sp && sp + 8 * |words| <= base + p
      ensures mem[..] == Overwrite(old(mem[..]), sp - base, WordBytes(words))
    {
      hide Overwrite, WordBytes;
      sp := Align16(base + p - 8 * |words|);
      WriteWords(mem, sp - base, words);
    }
  }

  /** v[k++] = word, for every word. */
  method WriteWords(mem: array<Byte>, at: nat, words: seq<nat>)
    requires at + 8 * |words| <= mem.Length
    modifies mem
    ensures mem[..] == Overwrite(old(mem[..]), at, WordBytes(words))
  {
    for k := 0 to |words|
      invariant mem[..] == Overwrite(old(mem[..]), at, WordBytes(words[..k]))
    {
      assert words[..k + 1][..k] == words[..k];
      OverwriteAppend(old(mem[..]), at, WordBytes(words[..k]), Encode(words[k], 8));
      Memcpy(mem, at + 8 * k, Encode(words[k], 8));
    }
    assert words[..|words|] == words;
  }

  lemma {:induction false} StringBytesPrefix(strs: seq<CString>, n: nat)
    requires n <= |strs|
    ensures StringBytes(strs[..n]) <= StringBytes(strs)
  {
    if n < |strs| {
      assert strs[..|strs| - 1][..n] == strs[..n];
      StringBytesPrefix(strs[..|strs| - 1], n);
    } else {
      assert strs[..n] == strs;
    }
  }

  /** What lies above the cursor stays when bytes are pushed below it. */
  lemma {:induction false} HoldsAbove(before: seq<Byte>, after: seq<Byte>, base: nat, q: nat, p: nat, a: nat,
                                      bs: seq<Byte>)
    requires |before| == |after| && p <= q <= |before| && after[q..] == before[q..]
    requires Holds(before, base, q, a, bs)
    ensures Holds(after, base, p, a, bs)
  {
    var i := a - base;
    assert i >= q;
    assert after[i..i + |bs|] == after[q..][i - q..i - q + |bs|];
    assert before[i..i + |bs|] == before[q..][i - q..i - q + |bs|];
  }

  lemma {:induction false} HoldsAllAbove(before: seq<Byte>, after: seq<Byte>, base: nat, q: nat, p: nat, ptrs: seq<nat>,
                                         strs: seq<CString>)
    requires |before| == |after| && p <= q <= |before| && after[q..] == before[q..]
    requires HoldsAll(before, base, q, ptrs, strs)
    ensures HoldsAll(after, base, p, ptrs, strs)
  {
    forall i | 0 <= i < |strs|
      ensures Holds(after, base, p, ptrs[i], strs[i] + [0])
    {
      HoldsAbove(before, after, base, q, p, ptrs[i], strs[i] + [0]);
    }
  }

  // ---- reading back what was built ----

  ghost predicate Words(mem: seq<Byte>, i: nat, ws: seq<nat>) {
    forall k :: 0 <= k < |ws| ==> WordAt(mem, i + 8 * k) == Some(ws[k])
  }

  lemma {:induction false} WordReads(mem: seq<Byte>, i: nat, w: nat)
    requires w < WORD && i + 8 <= |mem| && mem[i..i + 8] == Encode(w, 8)
    ensures WordAt(mem, i) == Some(w)
  {
    hide Encode, Decode;
    Capacities();
    DecodeEncode(w, 8);
  }

  lemma {:induction false} WordBytesRead(mem: seq<Byte>, i: nat, ws: seq<nat>)
    requires forall k :: 0 <= k < |ws| ==> ws[k] < WORD
    requires i + 8 * |ws| <= |mem| && mem[i..i + 8 * |ws|] == WordBytes(ws)
    ensures Words(mem, i, ws)
  {
    hide WordBytes, WordAt, Encode;
    if ws != [] {
      var n := |ws| - 1;
      LastWord(ws);
      SliceOfConcat(mem, i, WordBytes(ws[..n]), Encode(ws[n], 8));
      WordBytesRead(mem, i, ws[..n]);
      WordReads(mem, i + 8 * n, ws[n]);
    }
  }

  lemma {:induction false} LastWord(ws: seq<nat>)
    requires ws != []
    ensures WordBytes(ws) == WordBytes(ws[..|ws| - 1]) + Encode(ws[|ws| - 1], 8)
  {
  }

  lemma {:induction false} SliceOfConcat(mem: seq<Byte>, i: nat, a: seq<Byte>, b: seq<Byte>)
    requires i + |a| + |b| <= |mem| && mem[i..i + |a| + |b|] == a + b
    ensures mem[i..i + |a|] == a && mem[i + |a|..i + |a| + |b|] == b
  {
    var ab := mem[i..i + |a| + |b|];
    assert mem[i..i + |a|] == ab[..|a|] && mem[i + |a|..i + |a| + |b|] == ab[|a|..];
  }

  lemma {:induction false} StringReads(mem: seq<Byte>, i: nat, s: CString)
    requires i + |s| + 1 <= |mem| && mem[i..i + |s| + 1] == s + [0]
    ensures StringAt(mem, i) == Some(s)
    decreases |s|
  {
    var bytes := mem[i..i + |s| + 1];
    assert mem[i] == bytes[0];
    if s != [] {
      assert mem[i + 1..i + 1 + |s[1..]| + 1] == bytes[1..] == s[1..] + [0];
      StringReads(mem, i + 1, s[1..]);
      assert [s[0]] + s[1..] == s;
    }
  }

  lemma {:induction false} WordsSlice(mem: seq<Byte>, i: nat, ws: seq<nat>, from: nat, part: seq<nat>)
    requires Words(mem, i, ws) && from + |part| <= |ws| && ws[from..from + |part|] == part
    ensures Words(mem, i + 8 * from, part)
  {
    forall k | 0 <= k < |part|
      ensures WordAt(mem, i + 8 * from + 8 * k) == Some(part[k])
    {
      assert part[k] == ws[from + k];
      assert WordAt(mem, i + 8 * (from + k)) == Some(ws[from + k]);
    }
  }

  lemma {:induction false} StringsRead(mem: seq<Byte>, base: nat, p: nat, i: nat, ptrs: seq<nat>, strs: seq<CString>)
    requires base > 0 && HoldsAll(mem, base, p, ptrs, strs) && Words(mem, i, ptrs + [0])
    ensures StringsAt(mem, base, i) == Some((strs, i + 8 * |ptrs| + 8))
    decreases |ptrs|
  {
    hide WordAt, StringAt;
    var words := ptrs + [0];
    assert WordAt(mem, i + 8 * 0) == Some(words[0]);
    if ptrs != [] {
      assert Holds(mem, base, p, ptrs[0], strs[0] + [0]);
      StringReads(mem, ptrs[0] - base, strs[0]);
      WordsSlice(mem, i, words, 1, ptrs[1..] + [0]);
      StringsRead(mem, base, p, i + 8, ptrs[1..], strs[1..]);
      assert [strs[0]] + strs[1..] == strs;
    }
  }

  lemma {:induction false} AuxReads(mem: seq<Byte>, i: nat, aux: seq<AuxEntry>)
    requires forall j :: 0 <= j < |aux| ==> aux[j].typ != AT_NULL
    requires Words(mem, i, AuxWords(aux + [Aux(AT_NULL, 0)]))
    ensures AuxAt(mem, i) == Some(aux)
    decreases |aux|
  {
    var all := aux + [Aux(AT_NULL, 0)];
    var words := AuxWords(all);
    assert WordAt(mem, i + 8 * 0) == Some(words[0]) && WordAt(mem, i + 8 * 1) == Some(words[1]);
    if aux != [] {
      assert all[1..] == aux[1..] + [Aux(AT_NULL, 0)];
      WordsSlice(mem, i, words, 2, AuxWords(all[1..]));
      AuxReads(mem, i + 16, aux[1..]);
      assert [aux[0]] + aux[1..] == aux;
    }
  }

  /** A vector laid below intact strings reads back as exactly the arguments, the environment and the auxiliary vector
      it was built from. */
  lemma {:induction false} VectorReadsBack(mem: seq<Byte>, base: nat, p: nat, sp: nat, argp: seq<nat>,
                                           argv: seq<CString>, envpp: seq<nat>, envp: seq<CString>, aux: seq<AuxEntry>)
    requires base > 0 && sp >= base
    requires HoldsAll(mem, base, p, argp, argv) && HoldsAll(mem, base, p, envpp, envp)
    requires forall j :: 0 <= j < |aux| ==> aux[j].typ != AT_NULL
    requires Words(mem, sp - base, Vector(argp, envpp, aux + [Aux(AT_NULL, 0)]))
    ensures ReadStack(mem, base, sp) == Some(Startup(|argv|, argv, envp, aux))
  {
    hide WordAt, StringsAt, AuxAt, AuxWords;
    var all := aux + [Aux(AT_NULL, 0)];
    var words, i := Vector(argp, envpp, all), sp - base;
    assert WordAt(mem, i + 8 * 0) == Some(words[0]);
    WordsSlice(mem, i, words, 1, argp + [0]);
    StringsRead(mem, base, p, i + 8, argp, argv);
    WordsSlice(mem, i, words, |argp| + 2, envpp + [0]);
    StringsRead(mem, base, p, i + 8 * (|argp| + 2), envpp, envp);
    WordsSlice(mem, i, words, |argp| + |envpp| + 3, AuxWords(all));
    AuxReads(mem, i + 8 * (|argp| + |envpp| + 3), aux);
  }

  // ---- where the reader looks: the figure of the psABI, section 3.4.1 ----

  /** Word j of the vector at i points to the string. */
  predicate PointsTo(mem: seq<Byte>, base: nat, i: nat, s: seq<Byte>) {
    && WordAt(mem, i).Some? && WordAt(mem, i).value >= base
    && var a := WordAt(mem, i).value - base;
      a + |s| < |mem| && mem[a..a + |s|] == s && mem[a + |s|] == 0 && 0 !in s
  }

  lemma {:induction false} StringAtIs(mem: seq<Byte>, i: nat)
    requires StringAt(mem, i).Some?
    ensures var s := StringAt(mem, i).value;
      i + |s| < |mem| && mem[i..i + |s|] == s && mem[i + |s|] == 0 && 0 !in s
    decreases |mem| - i
  {
    if mem[i] != 0 {
      StringAtIs(mem, i + 1);
      var rest := StringAt(mem, i + 1).value;
      assert mem[i..i + 1 + |rest|] == [mem[i]] + mem[i + 1..i + 1 + |rest|];
    }
  }

  lemma {:induction false} StringsAtIs(mem: seq<Byte>, base: nat, i: nat)
    requires StringsAt(mem, base, i).Some?
    ensures var (strs, next) := StringsAt(mem, base, i).value;
      && next == i + 8 * |strs| + 8
      && WordAt(mem, i + 8 * |strs|) == Some(0)
      && forall j :: 0 <= j < |strs| ==> PointsTo(mem, base, i + 8 * j, strs[j])
    decreases |mem| - i
  {
    hide StringAt, Decode, PointsTo;
    var ptr := WordAt(mem, i).value;
    if ptr != 0 {
      PointerIs(mem, base, i);
      StringsAtIs(mem, base, i + 8);
      var strs, rest := StringsAt(mem, base, i).value.0, StringsAt(mem, base, i + 8).value.0;
      forall j | 0 <= j < |strs|
        ensures PointsTo(mem, base, i + 8 * j, strs[j])
      {
        assert j > 0 ==> strs[j] == rest[j - 1] && i + 8 * j == i + 8 + 8 * (j - 1);
      }
    }
  }

  lemma {:induction false} PointerIs(mem: seq<Byte>, base: nat, i: nat)
    requires WordAt(mem, i).Some? && WordAt(mem, i).value >= base && StringAt(mem, WordAt(mem, i).value - base).Some?
    ensures PointsTo(mem, base, i, StringAt(mem, WordAt(mem, i).value - base).value)
  {
    hide Decode, StringAt;
    StringAtIs(mem, WordAt(mem, i).value - base);
  }

  lemma {:induction false} AuxAtIs(mem: seq<Byte>, i: nat)
    requires AuxAt(mem, i).Some?
    ensures var aux := AuxAt(mem, i).value;
      && WordAt(mem, i + 16 * |aux|) == Some(0)
      && forall j :: 0 <= j < |aux| ==>
           WordAt(mem, i + 16 * j) == Some(aux[j].typ) && WordAt(mem, i + 16 * j + 8) == Some(aux[j].val)
    decreases |mem| - i
  {
    hide Decode;
    if WordAt(mem, i).value != AT_NULL {
      AuxAtIs(mem, i + 16);
      var aux, rest := AuxAt(mem, i).value, AuxAt(mem, i + 16).value;
      forall j | 0 <= j < |aux|
        ensures WordAt(mem, i + 16 * j) == Some(aux[j].typ) && WordAt(mem, i + 16 * j + 8) == Some(aux[j].val)
      {
        assert j > 0 ==> aux[j] == rest[j - 1] && i + 16 * j == i + 16 + 16 * (j - 1);
      }
    }
  }

  /** What it means to read a stack back: argc, then the argument pointers, NULL, the environment pointers, NULL, and
      the auxiliary pairs up to a zero word, each at its place above sp. */
  lemma {:induction false} StackFigure(mem: seq<Byte>, base: nat, sp: nat)
    requires sp >= base && ReadStack(mem, base, sp).Some?
    ensures var st, i := ReadStack(mem, base, sp).value, sp - base;
      var env := i + 8 * (2 + |st.argv|);
      var aux := env + 8 * (1 + |st.envp|);
      && WordAt(mem, i) == Some(st.argc)
      && (forall j :: 0 <= j < |st.argv| ==> PointsTo(mem, base, i + 8 + 8 * j, st.argv[j]))
      && WordAt(mem, env - 8) == Some(0)
      && (forall j :: 0 <= j < |st.envp| ==> PointsTo(mem, base, env + 8 * j, st.envp[j]))
      && WordAt(mem, aux - 8) == Some(0)
      && (forall j :: 0 <= j < |st.auxv| ==>
            WordAt(mem, aux + 16 * j) == Some(st.auxv[j].typ) && WordAt(mem, aux + 16 * j + 8) == Some(st.auxv[j].val))
      && WordAt(mem, aux + 16 * |st.auxv|) == Some(0)
  {
    hide WordAt, StringsAt, AuxAt, PointsTo;
    var i := sp - base;
    StringsAtIs(mem, base, i + 8);
    StringsAtIs(mem, base, StringsAt(mem, base, i + 8).value.1);
    AuxAtIs(mem, StringsAt(mem, base, StringsAt(mem, base, i + 8).value.1).value.1);
  }

  // ---- build_stack, in both loaders ----

  lemma {:induction false} AuxWordsSmall(aux: seq<AuxEntry>)
    requires forall j :: 0 <= j < |aux| ==> aux[j].typ < WORD && aux[j].val < WORD
    ensures forall k :: 0 <= k < |AuxWords(aux)| ==> AuxWords(aux)[k] < WORD
  {
    if aux != [] {
      AuxWordsSmall(aux[1..]);
    }
  }

  ghost predicate UsableAux(aux: seq<AuxEntry>) {
    forall j :: 0 <= j < |aux| ==> AT_NULL < aux[j].typ < WORD && aux[j].val < WORD
  }

  /** Words of the vector of build_stack, AT_NULL included. */
  function VectorWords(argc: nat, envc: nat, naux: nat): nat {
    1 + argc + 1 + envc + 1 + 2 * (naux + 1)
  }

  /** The last third of build_stack: lay the vector below the strings. */
  method LayVector(s: StackBuf, argp: seq<nat>, envpp: seq<nat>, aux: seq<AuxEntry>,
                   ghost argv: seq<CString>, ghost envp: seq<CString>) returns (sp: nat)
    requires s.Valid() && UsableAux(aux)
    requires HoldsAll(s.mem[..], s.base, s.p, argp, argv) && HoldsAll(s.mem[..], s.base, s.p, envpp, envp)
    requires |argp| < WORD && 8 * VectorWords(|argp|, |envpp|, |aux|) + 15 <= s.p
    modifies s.mem
    ensures sp % 16 == 0 && s.base <= sp && sp + 8 * VectorWords(|argp|, |envpp|, |aux|) <= s.base + s.p
    ensures s.mem[s.p..] == old(s.mem[s.p..])
    ensures ReadStack(s.mem[..], s.base, sp) == Some(Startup(|argv|, argv, envp, aux))
  {
    hide ReadStack, WordBytes;
    var all := aux + [Aux(AT_NULL, 0)];
    var words := Vector(argp, envpp, all);
    ghost var before := s.mem[..];
    sp := s.LayWords(words);
    ghost var after := s.mem[..];
    assert after[s.p..] == before[s.p..];
    HoldsAllAbove(before, after, s.base, s.p, s.p, argp, argv);
    HoldsAllAbove(before, after, s.base, s.p, s.p, envpp, envp);
    VectorSmall(before, s.base, s.p, argp, argv, envpp, envp, all);
    assert after[sp - s.base..sp - s.base + 8 * |words|] == WordBytes(words);
    WordBytesRead(after, sp - s.base, words);
    VectorReadsBack(after, s.base, s.p, sp, argp, argv, envpp, envp, aux);
  }

  lemma {:induction false} VectorSmall(mem: seq<Byte>, base: nat, p: nat, argp: seq<nat>, argv: seq<CString>,
                                       envpp: seq<nat>, envp: seq<CString>, aux: seq<AuxEntry>)
    requires base + |mem| < WORD && |argp| < WORD
    requires HoldsAll(mem, base, p, argp, argv) && HoldsAll(mem, base, p, envpp, envp)
    requires forall j :: 0 <= j < |aux| ==> aux[j].typ < WORD && aux[j].val < WORD
    ensures forall k :: 0 <= k < |Vector(argp, envpp, aux)| ==> Vector(argp, envpp, aux)[k] < WORD
  {
    hide AuxWords;
    AuxWordsSmall(aux);
    assert forall i :: 0 <= i < |argv| ==> Holds(mem, base, p, argp[i], argv[i] + [0]);
    assert forall i :: 0 <= i < |envp| ==> Holds(mem, base, p, envpp[i], envp[i] + [0]);
  }
}
