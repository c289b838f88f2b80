/** build_stack of loader/native.c and of loader/selfld.c. */
module StackBuilders {
  import opened Wrappers
  import opened Bytes
  import opened ElfImage
  import opened AddressSpace
  import opened ElfLayout
  import opened InitialStack
  import NativeLoader

  /** What getauxval and the uid/gid calls answer; `random` is None when the kernel gave no AT_RANDOM. */
  datatype KernelFacts = KernelFacts(random: Option<seq<Byte>>, uid: nat, euid: nat, gid: nat, egid: nat,
                                     clktck: nat, hwcap: nat, hwcap2: nat, sysinfo: nat)

  predicate Words64(k: KernelFacts) {
    && (k.random.Some? ==> |k.random.value| == 16)
    && k.uid < WORD && k.euid < WORD && k.gid < WORD && k.egid < WORD
    && k.clktck < WORD && k.hwcap < WORD && k.hwcap2 < WORD && k.sysinfo < WORD
  }

  const PLATFORM: CString := [0x78, 0x38, 0x36, 0x5f, 0x36, 0x34]

  const SELFLD_RANDOM: seq<Byte> :=
    [0x73, 0x65, 0x6c, 0x66, 0x6c, 0x64, 0x73, 0x65, 0x6c, 0x66, 0x6c, 0x64, 0x31, 0x32, 0x33, 0x34]

  function NativeRandom(k: KernelFacts): (r: seq<Byte>)
    requires Words64(k)
    ensures |r| == 16
  {
    if k.random.Some? then k.random.value else seq(16, i requires 0 <= i < 16 => (i * 7 + 1) % 256)
  }

  /** The entries before AT_NULL, in the order native.c adds them. */
  function NativeAux(exe: NativeLoader.Object, interpBase: nat, k: KernelFacts,
                     random: nat, platform: nat, execfn: nat): (aux: seq<AuxEntry>)
    ensures |aux| == if k.sysinfo != 0 then 19 else 18
  {
    [Aux(AT_PHDR, exe.phdr), Aux(AT_PHENT, exe.phent), Aux(AT_PHNUM, exe.phnum), Aux(AT_PAGESZ, PAGE),
     Aux(AT_BASE, interpBase), Aux(AT_FLAGS, 0), Aux(AT_ENTRY, exe.entry), Aux(AT_UID, k.uid), Aux(AT_EUID, k.euid),
     Aux(AT_GID, k.gid), Aux(AT_EGID, k.egid), Aux(AT_SECURE, 0), Aux(AT_CLKTCK, k.clktck), Aux(AT_HWCAP, k.hwcap),
     Aux(AT_HWCAP2, k.hwcap2), Aux(AT_RANDOM, random), Aux(AT_PLATFORM, platform), Aux(AT_EXECFN, execfn)]
    + if k.sysinfo != 0 then [Aux(AT_SYSINFO_EHDR, k.sysinfo)] else []
  }

  /** A word of the stack is eight bytes, lowest first. */
  lemma {:induction false} WordAtIs(mem: seq<Byte>, i: nat)
    ensures WordAt(mem, i) == if i + 8 <= |mem| then Some(LE8(mem, i)) else None
  {
    if i + 8 <= |mem| {
      Decode8(mem, i);
    }
  }

  // ---- what a program finds in its auxiliary vector (AMD64 psABI, section 3.4.3) ----

  /** There is an entry of type t, and its value is v. */
  ghost predicate Says(aux: seq<AuxEntry>, t: nat, v: nat) {
    exists j :: 0 <= j < |aux| && aux[j] == Aux(t, v)
  }

  ghost predicate Silent(aux: seq<AuxEntry>, t: nat) {
    forall j :: 0 <= j < |aux| ==> aux[j].typ != t
  }

  ghost predicate EachTypeOnce(aux: seq<AuxEntry>) {
    forall i, j :: 0 <= i < j < |aux| ==> aux[i].typ != aux[j].typ
  }

  /** The program's own headers and entry, the interpreter's base, the page size, and nothing secure. */
  ghost predicate SaysObject(aux: seq<AuxEntry>, exe: NativeLoader.Object, interpBase: nat) {
    && Says(aux, 3, exe.phdr) && Says(aux, 4, exe.phent) && Says(aux, 5, exe.phnum) && Says(aux, 6, 4096)
    && Says(aux, 7, interpBase) && Says(aux, 8, 0) && Says(aux, 9, exe.entry) && Says(aux, 23, 0)
  }

  /** The caller's ids and the kernel's facts; the vDSO's address only if there is one. */
  ghost predicate SaysKernel(aux: seq<AuxEntry>, k: KernelFacts) {
    && Says(aux, 11, k.uid) && Says(aux, 12, k.euid) && Says(aux, 13, k.gid) && Says(aux, 14, k.egid)
    && Says(aux, 16, k.hwcap) && Says(aux, 17, k.clktck) && Says(aux, 26, k.hwcap2)
    && (k.sysinfo != 0 ==> Says(aux, 33, k.sysinfo)) && (k.sysinfo == 0 ==> Silent(aux, 33))
  }

  /** The three pointers. */
  ghost predicate SaysPointers(aux: seq<AuxEntry>, random: nat, platform: nat, execfn: nat) {
    Says(aux, 25, random) && Says(aux, 15, platform) && Says(aux, 31, execfn)
  }

  /** The place of each type in native.c's vector. */
  function NativePlace(t: nat): nat {
    match t
    case 3 => 0 case 4 => 1 case 5 => 2 case 6 => 3 case 7 => 4 case 8 => 5 case 9 => 6 case 11 => 7 case 12 => 8
    case 13 => 9 case 14 => 10 case 23 => 11 case 17 => 12 case 16 => 13 case 26 => 14 case 25 => 15 case 15 => 16
    case 31 => 17 case _ => 18
  }

  lemma {:induction false} NativePlaces(exe: NativeLoader.Object, interpBase: nat, k: KernelFacts, random: nat,
                                        platform: nat, execfn: nat)
    ensures var aux := NativeAux(exe, interpBase, k, random, platform, execfn);
      && (forall j :: 0 <= j < |aux| ==> NativePlace(aux[j].typ) == j)
      && (k.sysinfo == 0 ==> Silent(aux, 33))
  {
  }

  lemma {:induction false} NativeAuxObject(exe: NativeLoader.Object, interpBase: nat, k: KernelFacts, random: nat,
                                           platform: nat, execfn: nat)
    ensures SaysObject(NativeAux(exe, interpBase, k, random, platform, execfn), exe, interpBase)
  {
    var aux := NativeAux(exe, interpBase, k, random, platform, execfn);
    assert aux[0] == Aux(3, exe.phdr) && aux[1] == Aux(4, exe.phent) && aux[2] == Aux(5, exe.phnum);
    assert aux[3] == Aux(6, 4096) && aux[4] == Aux(7, interpBase) && aux[5] == Aux(8, 0) && aux[6] == Aux(9, exe.entry);
    assert aux[11] == Aux(23, 0);
  }

  lemma {:induction false} NativeAuxKernel(exe: NativeLoader.Object, interpBase: nat, k: KernelFacts, random: nat,
                                           platform: nat, execfn: nat)
    ensures var aux := NativeAux(exe, interpBase, k, random, platform, execfn);
      SaysKernel(aux, k) && SaysPointers(aux, random, platform, execfn)
  {
    var aux := NativeAux(exe, interpBase, k, random, platform, execfn);
    NativePlaces(exe, interpBase, k, random, platform, execfn);
    assert aux[7] == Aux(11, k.uid) && aux[8] == Aux(12, k.euid);
    assert aux[9] == Aux(13, k.gid) && aux[10] == Aux(14, k.egid);
    assert aux[12] == Aux(17, k.clktck) && aux[13] == Aux(16, k.hwcap) && aux[14] == Aux(26, k.hwcap2);
    assert aux[15] == Aux(25, random) && aux[16] == Aux(15, platform) && aux[17] == Aux(31, execfn);
    assert k.sysinfo != 0 ==> aux[18] == Aux(33, k.sysinfo);
  }

  /** Everything native.c's vector says, each type once. */
  lemma {:induction false} NativeAuxSays(exe: NativeLoader.Object, interpBase: nat, k: KernelFacts, random: nat,
                                         platform: nat, execfn: nat)
    ensures var aux := NativeAux(exe, interpBase, k, random, platform, execfn);
      SaysObject(aux, exe, interpBase) && SaysKernel(aux, k) && SaysPointers(aux, random, platform, execfn)
      && EachTypeOnce(aux)
  {
    hide NativeAux, SaysObject, SaysKernel, SaysPointers, NativePlace;
    NativePlaces(exe, interpBase, k, random, platform, execfn);
    NativeAuxObject(exe, interpBase, k, random, platform, execfn);
    NativeAuxKernel(exe, interpBase, k, random, platform, execfn);
  }

  /** The platform string is "x86_64". */
  lemma {:induction false} PlatformIs()
    ensures |PLATFORM| == 6 && forall i :: 0 <= i < 6 ==> PLATFORM[i] == "x86_64"[i] as int
  {
  }

  predicate ObjectWords(o: NativeLoader.Object) {
    o.phdr < WORD && o.phent < WORD && o.phnum < WORD && o.entry < WORD
  }

  lemma {:induction false} NativeAuxUsable(exe: NativeLoader.Object, interpBase: nat, k: KernelFacts, random: nat,
                                           platform: nat, execfn: nat)
    requires Words64(k) && ObjectWords(exe) && interpBase < WORD && random < WORD && platform < WORD && execfn < WORD
    ensures UsableAux(NativeAux(exe, interpBase, k, random, platform, execfn))
  {
  }

  /** The three auxiliary blobs. */
  method PushAuxData(s: StackBuf, k: KernelFacts, execPath: CString) returns (random: nat, platform: nat, execfn: nat)
    requires s.Valid() && Words64(k) && 16 + |PLATFORM| + 1 + |execPath| + 1 <= s.p
    modifies s`p, s.mem
    ensures s.Valid() && s.p == old(s.p) - (16 + |PLATFORM| + 1 + |execPath| + 1)
    ensures Holds(s.mem[..], s.base, s.p, random, NativeRandom(k))
    ensures Holds(s.mem[..], s.base, s.p, platform, PLATFORM + [0])
    ensures Holds(s.mem[..], s.base, s.p, execfn, execPath + [0])
    ensures s.mem[old(s.p)..] == old(s.mem[s.p..])
  {
    hide NativeRandom, Holds;
    random := s.PushBytes(NativeRandom(k));
    ghost var m1, p1 := s.mem[..], s.p;
    platform := s.PushBytes(PLATFORM + [0]);
    ghost var m2, p2 := s.mem[..], s.p;
    HoldsAbove(m1, m2, s.base, p1, p2, random, NativeRandom(k));
    execfn := s.PushBytes(execPath + [0]);
    HoldsAbove(m2, s.mem[..], s.base, p2, s.p, random, NativeRandom(k));
    HoldsAbove(m2, s.mem[..], s.base, p2, s.p, platform, PLATFORM + [0]);
    assert m1[old(s.p)..] == old(s.mem[s.p..]) && m2[p1..] == m1[p1..] && s.mem[p2..] == m2[p2..];
  }

  lemma {:induction false} HoldsAddress(mem: seq<Byte>, base: nat, p: nat, a: nat, bs: seq<Byte>)
    requires Holds(mem, base, p, a, bs) && base + |mem| < WORD
    ensures a < WORD
  {
  }

  /** native.c: a stack that holds the strings, the vector and 15 bytes of slack is large enough, and the program reads
      back the arguments, the environment and the auxiliary vector; the three auxiliary pointers lead to the random
      bytes, the platform and the executable's name. */
  method BuildNativeStack(s: StackBuf, argv: seq<CString>, envp: seq<CString>, exe: NativeLoader.Object,
                          interpBase: nat, execPath: CString, k: KernelFacts)
    returns (sp: nat, random: nat, platform: nat, execfn: nat)
    requires s.Valid() && Words64(k) && ObjectWords(exe) && interpBase < WORD
    requires StringBytes(argv) + StringBytes(envp) + 16 + |PLATFORM| + 1 + |execPath| + 1
             + 8 * VectorWords(|argv|, |envp|, if k.sysinfo != 0 then 19 else 18) + 15 <= s.p
    modifies s`p, s.mem
    ensures sp % 16 == 0 && s.base <= sp < s.base + s.p
    ensures ReadStack(s.mem[..], s.base, sp) ==
            Some(Startup(|argv|, argv, envp, NativeAux(exe, interpBase, k, random, platform, execfn)))
    ensures var aux := ReadStack(s.mem[..], s.base, sp).value.auxv;
      SaysObject(aux, exe, interpBase) && SaysKernel(aux, k) && SaysPointers(aux, random, platform, execfn)
      && EachTypeOnce(aux)
    ensures Holds(s.mem[..], s.base, s.p, random, NativeRandom(k))
    ensures k.random.Some? ==> Holds(s.mem[..], s.base, s.p, random, k.random.value)
    ensures Holds(s.mem[..], s.base, s.p, platform, PLATFORM + [0])
    ensures Holds(s.mem[..], s.base, s.p, execfn, execPath + [0])
  {
    hide ReadStack, NativeRandom, StringBytes, NativeAux, UsableAux, Holds, HoldsAll;
    hide SaysObject, SaysKernel, SaysPointers, EachTypeOnce;
    KernelRandom(k);
    var argp := s.PushStrings(argv);
    ghost var m1, p1 := s.mem[..], s.p;
    var envpp := s.PushStrings(envp);
    ghost var m2, p2 := s.mem[..], s.p;
    HoldsAllAbove(m1, m2, s.base, p1, p2, argp, argv);
    random, platform, execfn := PushAuxData(s, k, execPath);
    ghost var m3, p3 := s.mem[..], s.p;
    HoldsAllAbove(m2, m3, s.base, p2, p3, argp, argv);
    HoldsAllAbove(m2, m3, s.base, p2, p3, envpp, envp);
    HoldsAddress(m3, s.base, p3, random, NativeRandom(k));
    HoldsAddress(m3, s.base, p3, platform, PLATFORM + [0]);
    HoldsAddress(m3, s.base, p3, execfn, execPath + [0]);
    NativeAuxUsable(exe, interpBase, k, random, platform, execfn);
    NativeAuxSays(exe, interpBase, k, random, platform, execfn);
    var aux := NativeAux(exe, interpBase, k, random, platform, execfn);
    SameLength(m3, s.base, p3, argp, argv);
    SameLength(m3, s.base, p3, envpp, envp);
    sp := LayVector(s, argp, envpp, aux, argv, envp);
    HoldsAbove(m3, s.mem[..], s.base, p3, p3, random, NativeRandom(k));
    HoldsAbove(m3, s.mem[..], s.base, p3, p3, platform, PLATFORM + [0]);
    HoldsAbove(m3, s.mem[..], s.base, p3, p3, execfn, execPath + [0]);
  }

  /** The kernel's sixteen bytes are passed on; without them each loader has a fixed substitute. */
  lemma {:induction false} KernelRandom(k: KernelFacts)
    requires Words64(k)
    ensures k.random.Some? ==> NativeRandom(k) == k.random.value && SelfldRandom(k) == k.random.value
    ensures k.random.None? ==> (forall i :: 0 <= i < 16 ==> NativeRandom(k)[i] == (7 * i + 1) % 256)
    ensures k.random.None? ==> (forall i :: 0 <= i < 16 ==> SelfldRandom(k)[i] == "selfldselfld1234"[i] as int)
  {
  }

  lemma {:induction false} SameLength(mem: seq<Byte>, base: nat, p: nat, ptrs: seq<nat>, strs: seq<CString>)
    requires HoldsAll(mem, base, p, ptrs, strs)
    ensures |ptrs| == |strs|
  {
  }

  function SelfldRandom(k: KernelFacts): (r: seq<Byte>)
    requires Words64(k)
    ensures |r| == 16
  {
    if k.random.Some? then k.random.value else SELFLD_RANDOM
  }

  function SelfldAux(entry: nat, phdr: nat, phnum: nat, k: KernelFacts, random: nat): (aux: seq<AuxEntry>)
    ensures |aux| == 8
  {
    [Aux(AT_PHDR, phdr), Aux(AT_PHNUM, phnum), Aux(AT_PHENT, PHDR_SIZE), Aux(AT_PAGESZ, PAGE), Aux(AT_ENTRY, entry),
     Aux(AT_BASE, 0), Aux(AT_RANDOM, random), Aux(AT_SYSINFO_EHDR, k.sysinfo)]
  }

  /** Everything selfld.c's vector says, each type once. */
  ghost predicate SelfldSays(aux: seq<AuxEntry>, entry: nat, phdr: nat, phnum: nat, k: KernelFacts, random: nat) {
    && |aux| == 8 && EachTypeOnce(aux)
    && Says(aux, 3, phdr) && Says(aux, 5, phnum) && Says(aux, 4, 56) && Says(aux, 6, 4096)
    && Says(aux, 9, entry) && Says(aux, 7, 0) && Says(aux, 25, random) && Says(aux, 33, k.sysinfo)
  }

  lemma {:induction false} SelfldAuxSays(entry: nat, phdr: nat, phnum: nat, k: KernelFacts, random: nat)
    ensures SelfldSays(SelfldAux(entry, phdr, phnum, k, random), entry, phdr, phnum, k, random)
  {
    var aux := SelfldAux(entry, phdr, phnum, k, random);
    assert aux[0] == Aux(3, phdr) && aux[1] == Aux(5, phnum) && aux[2] == Aux(4, 56) && aux[3] == Aux(6, 4096);
    assert aux[4] == Aux(9, entry) && aux[5] == Aux(7, 0) && aux[6] == Aux(25, random) && aux[7] == Aux(33, k.sysinfo);
  }

  /** selfld.c: the same construction with a shorter auxiliary vector. */
  method BuildSelfldStack(s: StackBuf, argv: seq<CString>, envp: seq<CString>, entry: nat, phdr: nat, phnum: nat,
                          k: KernelFacts) returns (sp: nat, random: nat)
    requires s.Valid() && Words64(k) && entry < WORD && phdr < WORD && phnum < WORD
    requires StringBytes(argv) + StringBytes(envp) + 16 + 8 * VectorWords(|argv|, |envp|, 8) + 15 <= s.p
    modifies s`p, s.mem
    ensures sp % 16 == 0 && s.base <= sp < s.base + s.p
    ensures ReadStack(s.mem[..], s.base, sp) ==
            Some(Startup(|argv|, argv, envp, SelfldAux(entry, phdr, phnum, k, random)))
    ensures SelfldSays(ReadStack(s.mem[..], s.base, sp).value.auxv, entry, phdr, phnum, k, random)
    ensures Holds(s.mem[..], s.base, s.p, random, SelfldRandom(k))
    ensures k.random.Some? ==> Holds(s.mem[..], s.base, s.p, random, k.random.value)
  {
    hide ReadStack, SelfldRandom, StringBytes, Holds, HoldsAll, SelfldSays;
    KernelRandom(k);
    var argp := s.PushStrings(argv);
    ghost var m1, p1 := s.mem[..], s.p;
    var envpp := s.PushStrings(envp);
    ghost var m2, p2 := s.mem[..], s.p;
    HoldsAllAbove(m1, m2, s.base, p1, p2, argp, argv);
    random := s.PushBytes(SelfldRandom(k));
    ghost var m3, p3 := s.mem[..], s.p;
    HoldsAllAbove(m2, m3, s.base, p2, p3, argp, argv);
    HoldsAllAbove(m2, m3, s.base, p2, p3, envpp, envp);
    HoldsAddress(m3, s.base, p3, random, SelfldRandom(k));
    SelfldAuxSays(entry, phdr, phnum, k, random);
    var aux := SelfldAux(entry, phdr, phnum, k, random);
    SameLength(m3, s.base, p3, argp, argv);
    SameLength(m3, s.base, p3, envpp, envp);
    sp := LayVector(s, argp, envpp, aux, argv, envp);
    HoldsAbove(m3, s.mem[..], s.base, p3, p3, random, SelfldRandom(k));
  }
}
