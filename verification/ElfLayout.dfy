/** Where each field of an ELF64 little-endian file lies (ELF gABI, chapters 4 and 5), byte by byte, against the packed
    records of elfimage.py and the rows elf2self.py makes of them. */
module ElfLayout {
  import opened Wrappers
  import opened Bytes
  import opened ElfImage
  import opened ElfImageLaws
  import opened SelfRows
  import opened ConversionLaws

  // ---- little-endian numbers, written out ----

  function LE2(s: seq<Byte>, i: nat): nat
    requires i + 2 <= |s|
  {
    s[i] as int + 0x100 * s[i + 1] as int
  }

  function LE4(s: seq<Byte>, i: nat): nat
    requires i + 4 <= |s|
  {
    LE2(s, i) + 0x1_0000 * LE2(s, i + 2)
  }

  function LE8(s: seq<Byte>, i: nat): nat
    requires i + 8 <= |s|
  {
    LE4(s, i) + 0x1_0000_0000 * LE4(s, i + 4)
  }

  lemma {:induction false} DecodeSplit(bs: seq<Byte>, k: nat)
    requires k <= |bs|
    ensures Decode(bs) == Decode(bs[..k]) + Capacity(k) * Decode(bs[k..])
  {
    if k == 0 {
      assert bs[0..] == bs;
    } else {
      DecodeSplit(bs[1..], k - 1);
      assert bs[1..][..k - 1] == bs[..k][1..] && bs[1..][k - 1..] == bs[k..];
      Regroup(bs[0], Decode(bs[..k][1..]), Capacity(k - 1), Decode(bs[k..]));
    }
  }

  lemma {:induction false} Regroup(a: int, b: int, c: int, d: int)
    ensures a + 256 * (b + c * d) == (a + 256 * b) + (256 * c) * d
  {
  }

  lemma {:induction false} Decode2(s: seq<Byte>, i: nat)
    requires i + 2 <= |s|
    ensures Decode(s[i..i + 2]) == LE2(s, i)
  {
    var bs := s[i..i + 2];
    assert bs[1..][1..] == [];
  }

  lemma {:induction false} Decode4(s: seq<Byte>, i: nat)
    requires i + 4 <= |s|
    ensures Decode(s[i..i + 4]) == LE4(s, i)
  {
    hide Decode;
    var bs := s[i..i + 4];
    Capacities();
    DecodeSplit(bs, 2);
    assert bs[..2] == s[i..i + 2] && bs[2..] == s[i + 2..i + 2 + 2];
    Decode2(s, i);
    Decode2(s, i + 2);
  }

  lemma {:induction false} Decode8(s: seq<Byte>, i: nat)
    requires i + 8 <= |s|
    ensures Decode(s[i..i + 8]) == LE8(s, i)
  {
    hide Decode;
    var bs := s[i..i + 8];
    Capacities();
    DecodeSplit(bs, 4);
    assert bs[..4] == s[i..i + 4] && bs[4..] == s[i + 4..i + 4 + 4];
    Decode4(s, i);
    Decode4(s, i + 4);
  }

  // ---- fields of a record by position ----

  lemma {:induction false} UnpackAt(widths: seq<nat>, bs: seq<Byte>, j: nat)
    requires |bs| == Span(widths) && j < |widths|
    ensures Span(widths[..j]) + widths[j] <= |bs|
    ensures Unpack(widths, bs)[j] == Decode(bs[Span(widths[..j])..Span(widths[..j]) + widths[j]])
  {
    hide Decode;
    if j == 0 {
      assert widths[..0] == [];
    } else {
      var rest, tail := widths[1..], bs[widths[0]..];
      UnpackAt(rest, tail, j - 1);
      var from := Span(rest[..j - 1]);
      assert widths[..j][1..] == rest[..j - 1];
      assert Span(widths[..j]) == widths[0] + from;
      assert tail[from..from + widths[j]] == bs[widths[0] + from..widths[0] + from + widths[j]];
      UnpackTail(widths, bs, j);
    }
  }

  lemma {:induction false} UnpackTail(widths: seq<nat>, bs: seq<Byte>, j: nat)
    requires |bs| == Span(widths) && 0 < j < |widths|
    ensures Unpack(widths, bs)[j] == Unpack(widths[1..], bs[widths[0]..])[j - 1]
  {
    hide Decode;
  }

  lemma {:induction false} SpanStep(widths: seq<nat>, j: nat)
    requires j < |widths|
    ensures Span(widths[..j + 1]) == Span(widths[..j]) + widths[j]
  {
    assert widths[..j + 1] == widths[..j] + [widths[j]];
    SpanOfConcat(widths[..j], [widths[j]]);
    assert [widths[j]][1..] == [];
  }

  lemma {:induction false} EhdrWidths()
    ensures var ws := EhdrFields();
      && |ws| == 13 && ws[0] == 2 && ws[1] == 2 && ws[2] == 4 && ws[3] == 8 && ws[4] == 8 && ws[5] == 8 && ws[6] == 4
      && forall j :: 7 <= j < 13 ==> ws[j] == 2
  {
  }

  lemma {:induction false} EmptySpan()
    ensures Span([]) == 0
  {
  }

  lemma {:induction false} EhdrOffset(j: nat)
    requires j < 13
    ensures |EhdrFields()| == 13
    ensures Span(EhdrFields()[..j]) == if j <= 2 then 2 * j else if j <= 6 then 8 * j - 16 else 22 + 2 * j
  {
    EhdrWidths();
    hide Span, EhdrFields;
    if j == 0 {
      EmptySpan();
      assert EhdrFields()[..0] == [];
    } else {
      EhdrOffset(j - 1);
      SpanStep(EhdrFields(), j - 1);
    }
  }

  lemma {:induction false} FieldAt(widths: seq<nat>, bs: seq<Byte>, j: nat, at: nat)
    requires |bs| == Span(widths) && j < |widths| && Span(widths[..j]) == at
    ensures at + widths[j] <= |bs| && |Unpack(widths, bs)| == |widths|
    ensures widths[j] == 2 ==> Unpack(widths, bs)[j] == LE2(bs, at)
    ensures widths[j] == 4 ==> Unpack(widths, bs)[j] == LE4(bs, at)
    ensures widths[j] == 8 ==> Unpack(widths, bs)[j] == LE8(bs, at)
  {
    hide Span, Unpack, Decode, LE2, LE4, LE8;
    UnpackAt(widths, bs, j);
    if widths[j] == 2 {
      Decode2(bs, at);
    }
    if widths[j] == 4 {
      Decode4(bs, at);
    }
    if widths[j] == 8 {
      Decode8(bs, at);
    }
  }

  lemma {:induction false} EhdrFieldAt(bs: seq<Byte>, j: nat)
    requires |bs| == 48 && j < 13
    ensures Span(EhdrFields()) == 48 && |EhdrFields()| == 13 && |Unpack(EhdrFields(), bs)| == 13
    ensures var at := if j <= 2 then 2 * j else if j <= 6 then 8 * j - 16 else 22 + 2 * j;
      && at + EhdrFields()[j] <= 48
      && (EhdrFields()[j] == 2 ==> Unpack(EhdrFields(), bs)[j] == LE2(bs, at))
      && (EhdrFields()[j] == 4 ==> Unpack(EhdrFields(), bs)[j] == LE4(bs, at))
      && (EhdrFields()[j] == 8 ==> Unpack(EhdrFields(), bs)[j] == LE8(bs, at))
  {
    FormatSizes();
    hide Span, Unpack, LE2, LE4, LE8, EhdrFields;
    EhdrOffset(j);
    FieldAt(EhdrFields(), bs, j, if j <= 2 then 2 * j else if j <= 6 then 8 * j - 16 else 22 + 2 * j);
  }

  /** The thirteen fields of the header record, by position. */
  lemma {:induction false} EhdrRecord(bs: seq<Byte>)
    requires |bs| == 48
    ensures Span(EhdrFields()) == 48 && |Unpack(EhdrFields(), bs)| == 13
    ensures var v := Unpack(EhdrFields(), bs);
      && v[0] == LE2(bs, 0) && v[1] == LE2(bs, 2) && v[2] == LE4(bs, 4)
      && v[3] == LE8(bs, 8) && v[4] == LE8(bs, 16) && v[5] == LE8(bs, 24) && v[6] == LE4(bs, 32)
      && v[7] == LE2(bs, 36) && v[8] == LE2(bs, 38) && v[9] == LE2(bs, 40)
      && v[10] == LE2(bs, 42) && v[11] == LE2(bs, 44) && v[12] == LE2(bs, 46)
  {
    EhdrWidths();
    FormatSizes();
    hide Span, EhdrFields, Unpack, LE2, LE4, LE8;
    forall j | 0 <= j < 13
      ensures var at := if j <= 2 then 2 * j else if j <= 6 then 8 * j - 16 else 22 + 2 * j;
        && |Unpack(EhdrFields(), bs)| == 13
        && (EhdrFields()[j] == 2 ==> Unpack(EhdrFields(), bs)[j] == LE2(bs, at))
        && (EhdrFields()[j] == 4 ==> Unpack(EhdrFields(), bs)[j] == LE4(bs, at))
        && (EhdrFields()[j] == 8 ==> Unpack(EhdrFields(), bs)[j] == LE8(bs, at))
    {
      EhdrFieldAt(bs, j);
    }
  }

  lemma {:induction false} PhdrWidths()
    ensures var ws := PhdrFields();
      && |ws| == 8 && ws[0] == 4 && ws[1] == 4 && forall j :: 2 <= j < 8 ==> ws[j] == 8
  {
  }

  lemma {:induction false} PhdrOffset(j: nat)
    requires j < 8
    ensures |PhdrFields()| == 8
    ensures Span(PhdrFields()[..j]) == if j <= 2 then 4 * j else 8 * j - 8
  {
    PhdrWidths();
    hide Span, PhdrFields;
    if j == 0 {
      EmptySpan();
      assert PhdrFields()[..0] == [];
    } else {
      PhdrOffset(j - 1);
      SpanStep(PhdrFields(), j - 1);
    }
  }

  lemma {:induction false} PhdrFieldAt(bs: seq<Byte>, j: nat)
    requires |bs| == 56 && j < 8
    ensures Span(PhdrFields()) == 56 && |PhdrFields()| == 8 && |Unpack(PhdrFields(), bs)| == 8
    ensures var at := if j <= 2 then 4 * j else 8 * j - 8;
      && at + PhdrFields()[j] <= 56
      && (PhdrFields()[j] == 4 ==> Unpack(PhdrFields(), bs)[j] == LE4(bs, at))
      && (PhdrFields()[j] == 8 ==> Unpack(PhdrFields(), bs)[j] == LE8(bs, at))
  {
    FormatSizes();
    hide Span, Unpack, LE2, LE4, LE8, PhdrFields;
    PhdrOffset(j);
    FieldAt(PhdrFields(), bs, j, if j <= 2 then 4 * j else 8 * j - 8);
  }

  /** The eight fields of a program header, by position. */
  lemma {:induction false} PhdrRecord(bs: seq<Byte>)
    requires |bs| == 56
    ensures Span(PhdrFields()) == 56 && |Unpack(PhdrFields(), bs)| == 8
    ensures var v := Unpack(PhdrFields(), bs);
      && v[0] == LE4(bs, 0) && v[1] == LE4(bs, 4) && v[2] == LE8(bs, 8) && v[3] == LE8(bs, 16)
      && v[4] == LE8(bs, 24) && v[5] == LE8(bs, 32) && v[6] == LE8(bs, 40) && v[7] == LE8(bs, 48)
  {
    PhdrWidths();
    FormatSizes();
    hide Span, PhdrFields, Unpack, LE4, LE8;
    forall j | 0 <= j < 8
      ensures var at := if j <= 2 then 4 * j else 8 * j - 8;
        && |Unpack(PhdrFields(), bs)| == 8
        && (PhdrFields()[j] == 4 ==> Unpack(PhdrFields(), bs)[j] == LE4(bs, at))
        && (PhdrFields()[j] == 8 ==> Unpack(PhdrFields(), bs)[j] == LE8(bs, at))
    {
      PhdrFieldAt(bs, j);
    }
  }

  // ---- the file header and the program headers of a file ----

  /** e is what the first 64 bytes say. */
  predicate EhdrAt(s: seq<Byte>, e: Ehdr)
    requires |s| >= 64
  {
    && e.osabi == s[7]
    && e.et == LE2(s, 16) && e.em == LE2(s, 18) && e.entry == LE8(s, 24) && e.phoff == LE8(s, 32)
    && e.eflags == LE4(s, 48) && e.phentsize == LE2(s, 54) && e.phnum == LE2(s, 56)
  }

  /** p is what the 56 bytes at `a` say. */
  predicate PhdrAt(s: seq<Byte>, a: nat, p: Phdr)
    requires a + 56 <= |s|
  {
    && p.ptype == LE4(s, a) && p.flags == LE4(s, a + 4) && p.offset == LE8(s, a + 8) && p.vaddr == LE8(s, a + 16)
    && p.filesz == LE8(s, a + 32) && p.memsz == LE8(s, a + 40) && p.align == LE8(s, a + 48)
  }

  lemma {:induction false} Shift(s: seq<Byte>, a: nat, n: nat, i: nat)
    requires a + n <= |s|
    ensures i + 2 <= n ==> LE2(s[a..a + n], i) == LE2(s, a + i)
    ensures i + 4 <= n ==> LE4(s[a..a + n], i) == LE4(s, a + i)
    ensures i + 8 <= n ==> LE8(s[a..a + n], i) == LE8(s, a + i)
  {
  }

  lemma {:induction false} ReadEhdrAt(s: seq<Byte>)
    requires |s| >= 64
    ensures EhdrAt(s, ReadEhdr(s))
  {
    hide Unpack, LE2, LE4, LE8, EhdrFields, Span;
    EhdrRecord(s[16..64]);
    Shift(s, 16, 48, 0);
    Shift(s, 16, 48, 2);
    Shift(s, 16, 48, 8);
    Shift(s, 16, 48, 16);
    Shift(s, 16, 48, 32);
    Shift(s, 16, 48, 38);
    Shift(s, 16, 48, 40);
  }

  lemma {:induction false} ReadPhdrAt(s: seq<Byte>, a: nat)
    requires a + 56 <= |s|
    ensures PhdrAt(s, a, ReadPhdr(s, a))
  {
    hide Unpack, LE2, LE4, LE8, PhdrFields, Span, Slice;
    PhdrRecord(s[a..a + 56]);
    Shift(s, a, 56, 0);
    Shift(s, a, 56, 4);
    Shift(s, a, 56, 8);
    Shift(s, a, 56, 16);
    Shift(s, a, 56, 32);
    Shift(s, a, 56, 40);
    Shift(s, a, 56, 48);
  }

  /** parse_image accepts `s`: magic number, 64-bit class, little-endian data, and a header table inside the file. */
  predicate Acceptable(s: seq<Byte>) {
    && |s| >= 64
    && s[0] == 0x7f && s[1] == 0x45 && s[2] == 0x4c && s[3] == 0x46 && s[4] == 2 && s[5] == 1
    && (LE2(s, 56) == 0 || (LE8(s, 32) < 0x8000_0000_0000_0000 && LE8(s, 32) + 56 * LE2(s, 56) <= |s|))
  }

  /** Bytes `from` to `to` of a file, as far as it goes. */
  function Cut(s: seq<Byte>, from: nat, to: nat): seq<Byte>
    requires from <= to
  {
    if from >= |s| then [] else if to >= |s| then s[from..] else s[from..to]
  }

  lemma {:induction false} SliceIsCut(s: seq<Byte>, from: nat, to: nat)
    requires from <= to
    ensures Slice(s, from, to) == Cut(s, from, to)
  {
  }

  lemma {:induction false} ParsedPhdrAt(s: seq<Byte>, a: nat)
    requires a + 56 <= |s|
    ensures var p := ReadPhdr(s, a);
      PhdrAt(s, a, p) && p.content == if LE4(s, a) == 1 then Some(Cut(s, p.offset, p.offset + p.filesz)) else None
  {
    hide Unpack, LE4, LE8, Slice, Cut;
    ReadPhdrAt(s, a);
    var p := ReadPhdr(s, a);
    SliceIsCut(s, p.offset, p.offset + p.filesz);
  }

  /** What parse_image makes of a file, in terms of its bytes: it succeeds exactly on acceptable files, and every field
      comes from its place. */
  lemma {:induction false} ParseLayout(s: seq<Byte>)
    ensures Parse(s).Success? <==> Acceptable(s)
    ensures Acceptable(s) ==>
      var (e, ps) := Parse(s).value;
      && EhdrAt(s, e) && |ps| == e.phnum
      && forall i :: 0 <= i < |ps| ==> ParsedAt(s, e.phoff + 56 * i, ps[i])
  {
    hide LE2, LE4, LE8, ReadEhdr, ReadPhdr;
    if |s| >= 64 {
      ReadEhdrAt(s);
      assert s[..4] == [s[0], s[1], s[2], s[3]];
      if Acceptable(s) {
        var (e, ps) := Parse(s).value;
        forall i | 0 <= i < |ps|
          ensures ParsedAt(s, e.phoff + 56 * i, ps[i])
        {
          ParsedPhdrAt(s, e.phoff + 56 * i);
        }
      }
    }
  }

  predicate ParsedAt(s: seq<Byte>, a: nat, p: Phdr) {
    && a + 56 <= |s| && PhdrAt(s, a, p)
    && p.content == if p.ptype == 1 then Some(Cut(s, p.offset, p.offset + p.filesz)) else None
  }

  // ---- the same places in a serialized image ----

  /** The 48 bytes at `a`: e_type, e_machine, e_version 1, e_entry, e_phoff, e_shoff 0, e_flags, e_ehsize 64,
      e_phentsize 56, e_phnum n, and nothing about sections. */
  predicate FieldsAt(s: seq<Byte>, a: nat, e: Ehdr, n: nat) {
    && a + 48 <= |s|
    && LE2(s, a) == e.et && LE2(s, a + 2) == e.em && LE4(s, a + 4) == 1 && LE8(s, a + 8) == e.entry
    && LE8(s, a + 16) == e.phoff && LE8(s, a + 24) == 0 && LE4(s, a + 32) == e.eflags && LE2(s, a + 36) == 64
    && LE2(s, a + 38) == 56 && LE2(s, a + 40) == n && LE2(s, a + 42) == 0 && LE2(s, a + 44) == 0 && LE2(s, a + 46) == 0
  }

  /** The 64 bytes of a canonical file header. */
  predicate CanonicalAt(s: seq<Byte>, e: Ehdr, n: nat) {
    && |s| >= 64
    && s[0] == 0x7f && s[1] == 0x45 && s[2] == 0x4c && s[3] == 0x46 && s[4] == 2 && s[5] == 1 && s[6] == 1
    && s[7] as int == e.osabi && (forall k :: 8 <= k < 16 ==> s[k] == 0)
    && FieldsAt(s, 16, e, n)
  }

  /** The 56 bytes of a program header, with p_paddr a copy of p_vaddr. */
  predicate CanonicalPhdrAt(s: seq<Byte>, a: nat, p: Phdr) {
    a + 56 <= |s| && PhdrAt(s, a, p) && LE8(s, a + 24) == p.vaddr
  }

  lemma {:induction false} FieldsOf(e: Ehdr, n: nat)
    requires EhdrFits(e, n)
    ensures FieldsAt(EhdrBytes(e, n)[16..], 0, e, n)
  {
    FitsOsabi(e, n);
    hide Unpack, Pack, LE2, LE4, LE8, EhdrFields, Span, EhdrFits, EhdrBytes;
    EhdrFieldsBack(e, n);
    EhdrRecord(EhdrBytes(e, n)[16..]);
  }

  lemma {:induction false} FieldsShift(s: seq<Byte>, bs: seq<Byte>, e: Ehdr, n: nat)
    requires |s| >= 64 && bs == s[16..64] && FieldsAt(bs, 0, e, n)
    ensures FieldsAt(s, 16, e, n)
  {
    hide LE2, LE4, LE8;
    Shift(s, 16, 48, 0);
    Shift(s, 16, 48, 2);
    Shift(s, 16, 48, 4);
    Shift(s, 16, 48, 8);
    Shift(s, 16, 48, 16);
    Shift(s, 16, 48, 24);
    Shift(s, 16, 48, 32);
    Shift(s, 16, 48, 36);
    Shift(s, 16, 48, 38);
    Shift(s, 16, 48, 40);
    Shift(s, 16, 48, 42);
    Shift(s, 16, 48, 44);
    Shift(s, 16, 48, 46);
  }

  lemma {:induction false} EhdrBytesAt(s: seq<Byte>, e: Ehdr, n: nat)
    requires EhdrFits(e, n) && |s| >= 64 && s[..64] == EhdrBytes(e, n)
    ensures CanonicalAt(s, e, n)
  {
    IdentAt(s, e, n);
    hide LE2, LE4, LE8, EhdrFits, EhdrBytes;
    FieldsOf(e, n);
    assert s[16..64] == s[..64][16..];
    FieldsShift(s, s[16..64], e, n);
  }

  lemma {:induction false} IdentAt(s: seq<Byte>, e: Ehdr, n: nat)
    requires EhdrFits(e, n) && |s| >= 64 && s[..64] == EhdrBytes(e, n)
    ensures s[0] == 0x7f && s[1] == 0x45 && s[2] == 0x4c && s[3] == 0x46 && s[4] == 2 && s[5] == 1 && s[6] == 1
    ensures s[7] as int == e.osabi && forall k :: 8 <= k < 16 ==> s[k] == 0
  {
    hide Pack, Fits, EhdrFields;
    var ident := Ident(e.osabi);
    forall k | 0 <= k < 16
      ensures s[k] == ident[k]
    {
      assert s[k] == s[..64][k] == EhdrBytes(e, n)[k];
    }
  }

  lemma {:induction false} PhdrBytesAt(s: seq<Byte>, a: nat, p: Phdr)
    requires PhdrFits(p) && a + 56 <= |s| && s[a..a + 56] == PhdrBytes(p)
    ensures CanonicalPhdrAt(s, a, p)
  {
    hide Unpack, Pack, LE2, LE4, LE8, PhdrFields, Span, PhdrFits, PhdrBytes;
    PhdrFieldsBack(p);
    PhdrRecord(s[a..a + 56]);
    Shift(s, a, 56, 0);
    Shift(s, a, 56, 4);
    Shift(s, a, 56, 8);
    Shift(s, a, 56, 16);
    Shift(s, a, 56, 24);
    Shift(s, a, 56, 32);
    Shift(s, a, 56, 40);
    Shift(s, a, 56, 48);
  }

  /** What serialize_image writes, in terms of bytes: every header field at its place. */
  lemma {:induction false} SerializeLayout(e: Ehdr, ps: seq<Phdr>)
    requires WholeContents(ps) && Serializable(e, ps) && e.phoff >= 64
    ensures Serialize(e, ps).Success?
    ensures var img := Serialize(e, ps).value;
      && CanonicalAt(img, e, |ps|)
      && forall i :: 0 <= i < |ps| ==> CanonicalPhdrAt(img, e.phoff + 56 * i, ps[i])
  {
    hide EhdrFits, PhdrFits, EhdrBytes, PhdrBytes, Serialize, ContentByte, EhdrAt, PhdrAt, CanonicalPhdrAt, CanonicalAt;
    FitsOsabi(e, |ps|);
    SerializeBytes(e, ps);
    var img := Serialize(e, ps).value;
    assert img[..64] == EhdrBytes(e, |ps|);
    EhdrBytesAt(img, e, |ps|);
    forall i | 0 <= i < |ps|
      ensures CanonicalPhdrAt(img, e.phoff + 56 * i, ps[i])
    {
      var a := e.phoff + 56 * i;
      forall k | 0 <= k < 56
        ensures img[a + k] == PhdrBytes(ps[i])[k]
      {
        assert InTable(e.phoff, |ps|, a + k);
        assert (a + k - e.phoff) / PHDR_SIZE == i && (a + k - e.phoff) % PHDR_SIZE == k;
      }
      assert img[a..a + 56] == PhdrBytes(ps[i]);
      PhdrBytesAt(img, a, ps[i]);
    }
  }

  lemma {:induction false} SegmentsEndAttained(ps: seq<Phdr>)
    ensures SegmentsEnd(ps) == 0 || exists i :: 0 <= i < |ps| && SegmentsEnd(ps) == ps[i].offset + ps[i].filesz
  {
    if ps != [] {
      SegmentsEndAttained(ps[..|ps| - 1]);
      assert forall i :: 0 <= i < |ps| - 1 ==> ps[..|ps| - 1][i] == ps[i];
    }
  }

  /** The image is no larger than it must be: its size is that of the file header, or the end of the header table, or
      the end of some segment, and all of these fit. */
  lemma {:induction false} ImageSizeIs(e: Ehdr, ps: seq<Phdr>)
    ensures var size := ImageSize(e, ps);
      && (size == 64 || size == e.phoff + 56 * |ps| || exists i :: 0 <= i < |ps| && size == ps[i].offset + ps[i].filesz)
      && size >= 64 && size >= e.phoff + 56 * |ps|
      && forall i :: 0 <= i < |ps| ==> ps[i].offset + ps[i].filesz <= size
  {
    hide SegmentsEnd;
    SegmentsEndAttained(ps);
  }

  // ---- the same places in the rows ----

  /** The `type` column: the gABI's and the GNU names of p_type. */
  lemma {:induction false} TypeNames(n: nat)
    ensures TypeName(n).Load? <==> n == 1
    ensures TypeName(n).Dynamic? <==> n == 2
    ensures TypeName(n).Interp? <==> n == 3
    ensures TypeName(n).Note? <==> n == 4
    ensures TypeName(n).PhdrTable? <==> n == 6
    ensures TypeName(n).Tls? <==> n == 7
    ensures TypeName(n).EhFrame? <==> n == 0x6474E550
    ensures TypeName(n).Stack? <==> n == 0x6474E551
    ensures TypeName(n).Relro? <==> n == 0x6474E552
    ensures TypeName(n).Property? <==> n == 0x6474E553
  {
  }

  /** Row i is made of the 56 bytes at `a`: bits 2, 1 and 0 of p_flags are r, w and x. */
  predicate RowAt(s: seq<Byte>, a: nat, i: nat, row: Segment) {
    && a + 56 <= |s|
    && row.id == i && row.ptype == LE4(s, a) && row.typ == TypeName(LE4(s, a))
    && row.r == (LE4(s, a + 4) / 4 % 2 == 1) && row.w == (LE4(s, a + 4) / 2 % 2 == 1)
    && row.x == (LE4(s, a + 4) % 2 == 1)
    && row.offset == LE8(s, a + 8) && row.vaddr == LE8(s, a + 16)
    && row.filesz == LE8(s, a + 32) && row.memsz == LE8(s, a + 40) && row.align == LE8(s, a + 48)
    && row.content == if LE4(s, a) == 1 then Some(Cut(s, row.offset, row.offset + row.filesz)) else None
  }

  /** What elf2self stores of a file, in terms of its bytes. */
  lemma {:induction false} StoredLayout(s: seq<Byte>, db: SelfDb)
    requires ToSelf(s) == Success(db)
    ensures Acceptable(s)
    ensures db.meta == map[Et := LE2(s, 16), Em := LE2(s, 18), Osabi := s[7] as int, Eflags := LE4(s, 48),
                           Entry := LE8(s, 24), Phoff := LE8(s, 32), Phnum := LE2(s, 56), Phentsize := 56]
    ensures |db.segments| == LE2(s, 56)
    ensures forall i :: 0 <= i < |db.segments| ==> RowAt(s, LE8(s, 32) + 56 * i, i, db.segments[i])
  {
    hide Parse, FirstError, StorableEhdr, LE2, LE4, LE8, Acceptable, TypeName, Cut;
    ParseLayout(s);
  }

  // ---- which files can be stored ----

  lemma {:induction false} Bounds(s: seq<Byte>, i: nat)
    ensures i + 2 <= |s| ==> LE2(s, i) < 0x1_0000
    ensures i + 4 <= |s| ==> LE4(s, i) < 0x1_0000_0000
  {
  }

  /** The header at `a` has numbers below 2^63; if it names the interpreter, its path is UTF-8 up to trailing NULs. */
  predicate StorableAt(s: seq<Byte>, a: nat) {
    var limit := 0x8000_0000_0000_0000;
    && a + 56 <= |s|
    && LE8(s, a + 8) < limit && LE8(s, a + 16) < limit && LE8(s, a + 32) < limit && LE8(s, a + 40) < limit
    && LE8(s, a + 48) < limit
    && (LE4(s, a) == 3 ==> Utf8(StripNuls(Cut(s, LE8(s, a + 8), LE8(s, a + 8) + LE8(s, a + 32)))))
  }

  predicate EntryStorable(s: seq<Byte>, i: nat) {
    |s| >= 64 && StorableAt(s, LE8(s, 32) + 56 * i)
  }

  lemma {:induction false} StorableRow(s: seq<Byte>, a: nat, p: Phdr)
    requires ParsedAt(s, a, p)
    ensures InterpReadable(s, p) && Storable(p) <==> StorableAt(s, a)
  {
    hide LE4, LE8, Slice, Cut, Utf8, StripNuls;
    Bounds(s, a);
    Bounds(s, a + 4);
    SliceIsCut(s, p.offset, p.offset + p.filesz);
    var v := PhdrValues(p);
    assert v == [p.ptype, p.flags, p.offset, p.vaddr, p.vaddr, p.filesz, p.memsz, p.align];
    if Storable(p) {
      assert v[2] < SQLITE_LIMIT && v[3] < SQLITE_LIMIT && v[5] < SQLITE_LIMIT && v[6] < SQLITE_LIMIT
             && v[7] < SQLITE_LIMIT;
    }
  }

  lemma {:induction false} StorableHeader(s: seq<Byte>, e: Ehdr)
    requires |s| >= 64 && EhdrAt(s, e)
    ensures StorableEhdr(e) <==> LE8(s, 24) < 0x8000_0000_0000_0000 && LE8(s, 32) < 0x8000_0000_0000_0000
  {
    hide LE2, LE4, LE8;
    Bounds(s, 16);
    Bounds(s, 18);
    Bounds(s, 48);
  }

  /** elf2self stores exactly the acceptable files whose entry point and header fields are below 2^63 and whose
      interpreter paths are UTF-8. */
  lemma {:induction false} StoresInBytes(s: seq<Byte>)
    ensures ToSelf(s).Success? <==>
            && Acceptable(s) && LE8(s, 24) < 0x8000_0000_0000_0000 && LE8(s, 32) < 0x8000_0000_0000_0000
            && forall i :: 0 <= i < LE2(s, 56) ==> EntryStorable(s, i)
  {
    hide Parse, ToSelf, LE2, LE4, LE8, Acceptable, StorableAt, Storable, InterpReadable, ParsedAt, StorableEhdr;
    ParseLayout(s);
    StoresExactly(s);
    if Acceptable(s) {
      AcceptableSize(s);
      var (e, ps) := Parse(s).value;
      StorableHeader(s, e);
      forall i | 0 <= i < |ps|
        ensures InterpReadable(s, ps[i]) && Storable(ps[i]) <==> EntryStorable(s, i)
      {
        StorableRow(s, e.phoff + 56 * i, ps[i]);
      }
    } else {
      AcceptableSize(s);
    }
  }

  lemma {:induction false} AcceptableSize(s: seq<Byte>)
    ensures Acceptable(s) ==> |s| >= 64
  {
  }
}
