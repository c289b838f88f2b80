/** What serialize_image writes, byte by byte, and why parse_image undoes it. */
module ElfImageLaws {
  import opened Wrappers
  import opened Bytes
  import opened ElfImage

  // ---- a reference image: who owns byte k ----

  predicate Covers(p: Phdr, k: nat) {
    p.content.Some? && p.offset <= k < p.offset + |p.content.value|
  }

  /** The byte of the last content that covers k. */
  function ContentByte(ps: seq<Phdr>, k: nat): (b: Option<Byte>)
    ensures b.Some? <==> exists i :: 0 <= i < |ps| && Covers(ps[i], k)
  {
    if ps == [] then None else
      var p := ps[|ps| - 1];
      if Covers(p, k) then Some(p.content.value[k - p.offset]) else ContentByte(ps[..|ps| - 1], k)
  }

  predicate InTable(phoff: nat, n: nat, k: nat) {
    phoff <= k < phoff + n * PHDR_SIZE
  }

  function TableByte(phoff: nat, ps: seq<Phdr>, k: nat): Byte
    requires InTable(phoff, |ps|, k)
  {
    PhdrBytes(ps[(k - phoff) / PHDR_SIZE])[(k - phoff) % PHDR_SIZE]
  }

  /** Header table over file header over contents over zeros. */
  function ReferenceByte(e: Ehdr, ps: seq<Phdr>, k: nat): Byte
    requires e.osabi < 256
  {
    if InTable(e.phoff, |ps|, k) then TableByte(e.phoff, ps, k)
    else if k < EHDR_SIZE then EhdrBytes(e, |ps|)[k]
    else
      var b := ContentByte(ps, k);
      if b.Some? then b.value else 0
  }

  /** Every content holds exactly `filesz` bytes; otherwise the slice assignment resizes the image. */
  ghost predicate WholeContents(ps: seq<Phdr>) {
    forall i :: 0 <= i < |ps| && ps[i].content.Some? ==> |ps[i].content.value| == ps[i].filesz
  }

  ghost predicate Serializable(e: Ehdr, ps: seq<Phdr>) {
    && ps != []
    && ImageSize(e, ps) < SSIZE_LIMIT
    && EhdrFits(e, |ps|)
    && forall i :: 0 <= i < |ps| ==> PhdrFits(ps[i])
  }

  lemma {:induction false} PutContentsBytes(img: seq<Byte>, ps: seq<Phdr>)
    requires WholeContents(ps)
    requires forall i :: 0 <= i < |ps| ==> ps[i].offset + ps[i].filesz <= |img|
    ensures |PutContents(img, ps)| == |img|
    ensures forall k :: 0 <= k < |img| ==>
      PutContents(img, ps)[k] == var b := ContentByte(ps, k); if b.Some? then b.value else img[k]
  {
    if ps != [] {
      PutContentsBytes(img, ps[..|ps| - 1]);
    }
  }

  lemma {:induction false} PutTableBytes(img: seq<Byte>, phoff: nat, ps: seq<Phdr>)
    requires phoff + |ps| * PHDR_SIZE <= |img|
    ensures PutTable(img, phoff, ps).Success? <==> forall i :: 0 <= i < |ps| ==> PhdrFits(ps[i])
    ensures PutTable(img, phoff, ps).Success? ==>
      var r := PutTable(img, phoff, ps).value;
      && |r| == |img|
      && forall k :: 0 <= k < |img| ==> r[k] == if InTable(phoff, |ps|, k) then TableByte(phoff, ps, k) else img[k]
  {
    hide PhdrFits, PhdrBytes;
    if ps != [] {
      PutTableBytes(img, phoff, ps[..|ps| - 1]);
    }
  }

  lemma {:induction false} FitsOsabi(e: Ehdr, n: nat)
    ensures EhdrFits(e, n) ==> e.osabi < 256
  {
  }

  /** serialize_image succeeds exactly on well-formed headers whose image size fits Py_ssize_t, and the image is the
      reference image. */
  lemma {:induction false} SerializeBytes(e: Ehdr, ps: seq<Phdr>)
    requires WholeContents(ps)
    ensures Serialize(e, ps).Success? <==> Serializable(e, ps)
    ensures Serializable(e, ps) ==>
      var img := Serialize(e, ps).value;
      && |img| == ImageSize(e, ps)
      && forall k :: 0 <= k < |img| ==> img[k] == ReferenceByte(e, ps, k)
  {
    hide EhdrFits, PhdrFits, EhdrBytes, PhdrBytes;
    FitsOsabi(e, |ps|);
    if ps != [] && ImageSize(e, ps) < SSIZE_LIMIT && e.osabi < 256 {
      var blank := Zeros(ImageSize(e, ps));
      PutContentsBytes(blank, ps);
      if EhdrFits(e, |ps|) {
        PutTableBytes(Overwrite(PutContents(blank, ps), 0, EhdrBytes(e, |ps|)), e.phoff, ps);
      }
    }
  }

  // ---- parse_image after serialize_image ----

  /** What survives of a file header: the entry size and the count are recomputed. */
  function CanonicalEhdr(e: Ehdr, n: nat): Ehdr {
    e.(phentsize := PHDR_SIZE, phnum := n)
  }

  /** What survives of a program header: the content is re-read from the image. */
  function Reread(p: Phdr, img: seq<Byte>): Phdr {
    p.(content := if p.ptype == PT_LOAD then Some(Slice(img, p.offset, p.offset + p.filesz)) else None)
  }

  lemma {:induction false} IdentBytes(e: Ehdr, n: nat)
    requires e.osabi < 256
    ensures var head := EhdrBytes(e, n);
      head[..4] == ELF_MAGIC && head[4] == 2 && head[5] == 1 && head[7] == e.osabi
  {
  }

  lemma {:induction false} EhdrFieldsBack(e: Ehdr, n: nat)
    requires EhdrFits(e, n)
    ensures (FormatSizes(); Unpack(EhdrFields(), EhdrBytes(e, n)[16..])) == EhdrValues(e, n)
  {
    FormatSizes();
    var values := EhdrValues(e, n);
    assert EhdrBytes(e, n)[16..] == Pack(EhdrFields(), values);
    UnpackPack(EhdrFields(), values);
  }

  lemma {:induction false} SameEhdrRecord(e: Ehdr, n: nat)
    requires EhdrFits(e, n)
    ensures EhdrFits(CanonicalEhdr(e, n), n) && EhdrBytes(CanonicalEhdr(e, n), n) == EhdrBytes(e, n)
  {
    assert EhdrValues(CanonicalEhdr(e, n), n) == EhdrValues(e, n);
  }

  lemma {:induction false} SamePhdrRecord(p: Phdr, img: seq<Byte>)
    requires PhdrFits(p)
    ensures PhdrFits(Reread(p, img)) && PhdrBytes(Reread(p, img)) == PhdrBytes(p)
  {
    assert PhdrValues(Reread(p, img)) == PhdrValues(p);
  }

  lemma {:induction false} ValuesGiveEhdr(e: Ehdr, n: nat)
    ensures |EhdrValues(e, n)| == 13
    ensures var v := EhdrValues(e, n);
      Ehdr(v[0], v[1], v[3], v[4], v[6], v[8], v[9], e.osabi) == CanonicalEhdr(e, n)
  {
  }

  lemma {:induction false} ReadEhdrBytes(img: seq<Byte>, e: Ehdr, n: nat)
    requires EhdrFits(e, n) && |img| >= EHDR_SIZE
    requires forall k :: 0 <= k < EHDR_SIZE ==> img[k] == EhdrBytes(e, n)[k]
    ensures Slice(img, 0, 4) == ELF_MAGIC && img[4] == 2 && img[5] == 1
    ensures ReadEhdr(img) == CanonicalEhdr(e, n)
  {
    hide EhdrBytes, EhdrFits, Unpack, EhdrValues, CanonicalEhdr;
    FormatSizes();
    FitsOsabi(e, n);
    ValuesGiveEhdr(e, n);
    IdentBytes(e, n);
    EhdrFieldsBack(e, n);
    var head := EhdrBytes(e, n);
    assert img[4] == head[4] && img[5] == head[5] && img[7] == head[7];
    assert img[..4] == head[..4];
    assert img[16..EHDR_SIZE] == head[16..];
    var v := Unpack(EhdrFields(), img[16..EHDR_SIZE]);
    assert v == EhdrValues(e, n);
    assert ReadEhdr(img) == Ehdr(v[0], v[1], v[3], v[4], v[6], v[8], v[9], img[7]);
  }

  lemma {:induction false} PhdrFieldsBack(p: Phdr)
    requires PhdrFits(p)
    ensures (FormatSizes(); Unpack(PhdrFields(), PhdrBytes(p))) == PhdrValues(p)
  {
    FormatSizes();
    UnpackPack(PhdrFields(), PhdrValues(p));
  }

  lemma {:induction false} ReadPhdrBytes(img: seq<Byte>, at: nat, p: Phdr)
    requires PhdrFits(p) && at + PHDR_SIZE <= |img|
    requires forall k :: 0 <= k < PHDR_SIZE ==> img[at + k] == PhdrBytes(p)[k]
    ensures ReadPhdr(img, at) == Reread(p, img)
  {
    hide Unpack, PhdrBytes, PhdrFits;
    FormatSizes();
    assert img[at..at + PHDR_SIZE] == PhdrBytes(p);
    PhdrFieldsBack(p);
  }

  /** Parsing a serialized image gives back every header, in order, with contents cut from the image. */
  lemma {:induction false} ParseSerialized(e: Ehdr, ps: seq<Phdr>)
    requires WholeContents(ps) && Serializable(e, ps) && e.phoff >= EHDR_SIZE
    ensures Serialize(e, ps).Success?
    ensures var img := Serialize(e, ps).value;
      && Parse(img).Success?
      && Parse(img).value.0 == CanonicalEhdr(e, |ps|)
      && |Parse(img).value.1| == |ps|
      && forall i :: 0 <= i < |ps| ==> Parse(img).value.1[i] == Reread(ps[i], img)
  {
    hide EhdrFits, PhdrFits, EhdrBytes, PhdrBytes, Serialize, ReadEhdr, ReadPhdr;
    FitsOsabi(e, |ps|);
    SerializeBytes(e, ps);
    var img := Serialize(e, ps).value;
    ReadEhdrBytes(img, e, |ps|);
    forall i | 0 <= i < |ps|
      ensures ReadPhdr(img, e.phoff + i * PHDR_SIZE) == Reread(ps[i], img)
    {
      var at := e.phoff + i * PHDR_SIZE;
      forall k | 0 <= k < PHDR_SIZE
        ensures img[at + k] == PhdrBytes(ps[i])[k]
      {
        assert InTable(e.phoff, |ps|, at + k);
        assert (at + k - e.phoff) / PHDR_SIZE == i && (at + k - e.phoff) % PHDR_SIZE == k;
      }
      ReadPhdrBytes(img, at, ps[i]);
    }
  }

  /** Byte k lies in the file range of p, and p is a load segment. */
  predicate Loads(p: Phdr, k: nat) {
    p.ptype == PT_LOAD && p.offset <= k < p.offset + p.filesz
  }

  ghost predicate InLoad(ps: seq<Phdr>, k: nat) {
    exists i :: 0 <= i < |ps| && Loads(ps[i], k)
  }

  /** Contents are cut from `data`: exactly the load segments carry one. */
  ghost predicate ContentsFrom(data: seq<Byte>, ps: seq<Phdr>) {
    forall i :: 0 <= i < |ps| ==>
      ps[i].content ==
      if ps[i].ptype == PT_LOAD then Some(Slice(data, ps[i].offset, ps[i].offset + ps[i].filesz)) else None
  }

  /** Every load segment lies inside a file of `size` bytes. */
  ghost predicate LoadsInside(ps: seq<Phdr>, size: nat) {
    forall i :: 0 <= i < |ps| && ps[i].ptype == PT_LOAD ==> ps[i].offset + ps[i].filesz <= size
  }

  /** When all contents that cover k agree on it, the last one is no different from the others. */
  lemma {:induction false} ContentsAgree(ps: seq<Phdr>, k: nat, b: Byte)
    requires forall i :: 0 <= i < |ps| && Covers(ps[i], k) ==> ps[i].content.value[k - ps[i].offset] == b
    ensures ContentByte(ps, k) == if exists i :: 0 <= i < |ps| && Covers(ps[i], k) then Some(b) else None
  {
    if ps != [] {
      ContentsAgree(ps[..|ps| - 1], k, b);
      assert ContentByte(ps, k).Some? ==> ContentByte(ps, k).value == b;
    }
  }

  lemma {:induction false} SlicesShowData(data: seq<Byte>, ps: seq<Phdr>, k: nat)
    requires ContentsFrom(data, ps) && LoadsInside(ps, |data|)
    ensures InLoad(ps, k) ==> k < |data|
    ensures ContentByte(ps, k) == if InLoad(ps, k) then Some(data[k]) else None
  {
    assert forall i :: 0 <= i < |ps| ==> (Covers(ps[i], k) <==> Loads(ps[i], k));
    if InLoad(ps, k) {
      ContentsAgree(ps, k, data[k]);
    }
  }

  lemma {:induction false} SameExtent(ps: seq<Phdr>, qs: seq<Phdr>)
    requires |qs| == |ps| && forall i :: 0 <= i < |ps| ==> qs[i].offset == ps[i].offset && qs[i].filesz == ps[i].filesz
    ensures SegmentsEnd(qs) == SegmentsEnd(ps)
  {
    if ps != [] {
      SameExtent(ps[..|ps| - 1], qs[..|ps| - 1]);
    }
  }

  /** A serialized image is a normal form: parsing and serializing it again changes no byte, whatever overlaps. */
  lemma {:induction false} NormalForm(e: Ehdr, ps: seq<Phdr>)
    requires WholeContents(ps) && Serializable(e, ps) && e.phoff >= EHDR_SIZE
    requires forall i :: 0 <= i < |ps| && ps[i].content.Some? ==> ps[i].ptype == PT_LOAD
    ensures Serialize(e, ps).Success?
    ensures var img := Serialize(e, ps).value;
      Parse(img).Success? && Serialize(Parse(img).value.0, Parse(img).value.1) == Success(img)
  {
    hide EhdrFits, PhdrFits, EhdrBytes, PhdrBytes, Serialize, Parse;
    FitsOsabi(e, |ps|);
    ParseSerialized(e, ps);
    SerializeBytes(e, ps);
    var img := Serialize(e, ps).value;
    var (f, qs) := Parse(img).value;
    SameExtent(ps, qs);
    SameEhdrRecord(e, |ps|);
    forall i | 0 <= i < |ps|
      ensures PhdrFits(qs[i]) && PhdrBytes(qs[i]) == PhdrBytes(ps[i])
    {
      SamePhdrRecord(ps[i], img);
    }
    SerializeBytes(f, qs);
    var again := Serialize(f, qs).value;
    forall k | 0 <= k < |img|
      ensures again[k] == img[k]
    {
      if !InTable(e.phoff, |ps|, k) && k >= EHDR_SIZE {
        SlicesShowData(img, qs, k);
        assert forall i :: 0 <= i < |ps| ==> (Covers(ps[i], k) ==> Loads(qs[i], k));
      }
    }
    assert again == img;
  }
}
