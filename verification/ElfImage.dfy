/** selfconv/elfimage.py: ELF64 images to header records and back. */
module ElfImage {
  import opened Wrappers
  import opened Bytes

  const EHDR_SIZE: nat := 64
  const PHDR_SIZE: nat := 56
  const PT_LOAD: nat := 1
  /** The first value that is no Py_ssize_t: no bytes object is as long, and no offset or size may reach it. */
  const SSIZE_LIMIT: nat := 0x8000_0000_0000_0000
  const ELF_MAGIC: seq<Byte> := [0x7f, 0x45, 0x4c, 0x46]

  /** The formats "<HHIQQQIHHHHHH" (the part of EHDR_FMT after the 16 ident bytes) and "<IIQQQQQQ". */
  function EhdrFields(): seq<nat> {
    [2, 2, 4] + seq(3, _ => 8) + [4] + seq(6, _ => 2)
  }

  function PhdrFields(): seq<nat> {
    [4, 4] + seq(6, _ => 8)
  }

  datatype Ehdr = Ehdr(et: nat, em: nat, entry: nat, phoff: nat, eflags: nat, phentsize: nat, phnum: nat, osabi: nat)

  /** `content` is the segment's bytes; only load segments carry one. */
  datatype Phdr = Phdr(ptype: nat, flags: nat, offset: nat, vaddr: nat, filesz: nat, memsz: nat, align: nat,
                       content: Option<seq<Byte>>)

  datatype Error = NotElf | UnsupportedClass | IndexError | StructError | ValueError | KeyError | OverflowError
                 | UnicodeDecodeError

  lemma {:induction false} FormatSizes()
    ensures Span(EhdrFields()) == 48 && Span(PhdrFields()) == PHDR_SIZE
  {
    SpanOfRun(3, 8);
    SpanOfRun(6, 2);
    SpanOfRun(6, 8);
    SpanOfConcat([2, 2, 4], seq(3, _ => 8));
    SpanOfConcat([2, 2, 4] + seq(3, _ => 8), [4]);
    SpanOfConcat([2, 2, 4] + seq(3, _ => 8) + [4], seq(6, _ => 2));
    SpanOfConcat([4, 4], seq(6, _ => 8));
  }

  // ---- header records ----

  function Ident(osabi: Byte): (bs: seq<Byte>)
    ensures |bs| == 16
  {
    ELF_MAGIC + [2, 1, 1, osabi] + Zeros(8)
  }

  function EhdrValues(e: Ehdr, phnum: nat): seq<nat> {
    [e.et, e.em, 1, e.entry, e.phoff, 0, e.eflags, EHDR_SIZE, PHDR_SIZE, phnum, 0, 0, 0]
  }

  function PhdrValues(p: Phdr): seq<nat> {
    [p.ptype, p.flags, p.offset, p.vaddr, p.vaddr, p.filesz, p.memsz, p.align]
  }

  predicate EhdrFits(e: Ehdr, phnum: nat) {
    e.osabi < 256 && Fits(EhdrFields(), EhdrValues(e, phnum))
  }

  predicate PhdrFits(p: Phdr) {
    Fits(PhdrFields(), PhdrValues(p))
  }

  /** The canonical file header: everything about sections is zero. */
  function EhdrBytes(e: Ehdr, phnum: nat): (bs: seq<Byte>)
    requires e.osabi < 256
    ensures |bs| == EHDR_SIZE
  {
    FormatSizes();
    Ident(e.osabi) + Pack(EhdrFields(), EhdrValues(e, phnum))
  }

  function PhdrBytes(p: Phdr): (bs: seq<Byte>)
    ensures |bs| == PHDR_SIZE
  {
    FormatSizes();
    Pack(PhdrFields(), PhdrValues(p))
  }

  // ---- parse_image ----

  predicate TableInside(phoff: nat, n: nat, size: nat) {
    n == 0 || phoff + n * PHDR_SIZE <= size
  }

  function ReadEhdr(data: seq<Byte>): Ehdr
    requires |data| >= EHDR_SIZE
  {
    FormatSizes();
    var v := Unpack(EhdrFields(), data[16..EHDR_SIZE]);
    Ehdr(v[0], v[1], v[3], v[4], v[6], v[8], v[9], data[7])
  }

  function ReadPhdr(data: seq<Byte>, at: nat): Phdr
    requires at + PHDR_SIZE <= |data|
  {
    FormatSizes();
    var v := Unpack(PhdrFields(), data[at..at + PHDR_SIZE]);
    Phdr(v[0], v[1], v[2], v[3], v[5], v[6], v[7],
         if v[0] == PT_LOAD then Some(Slice(data, v[2], v[2] + v[5])) else None)
  }

  function ReadTable(data: seq<Byte>, phoff: nat, n: nat): (ps: seq<Phdr>)
    requires TableInside(phoff, n, |data|)
    ensures |ps| == n
    ensures forall i :: 0 <= i < n ==> ps[i] == ReadPhdr(data, phoff + i * PHDR_SIZE)
  {
    if n == 0 then [] else ReadTable(data, phoff, n - 1) + [ReadPhdr(data, phoff + (n - 1) * PHDR_SIZE)]
  }

  function Parse(data: seq<Byte>): Result<(Ehdr, seq<Phdr>), Error> {
    if Slice(data, 0, 4) != ELF_MAGIC then Failure(NotElf)
    else if |data| == 4 then Failure(IndexError)
    else if data[4] != 2 then Failure(UnsupportedClass)
    else if |data| == 5 then Failure(IndexError)
    else if data[5] != 1 then Failure(UnsupportedClass)
    else if |data| < EHDR_SIZE then Failure(StructError)
    else
      var e := ReadEhdr(data);
      if e.phnum > 0 && e.phoff >= SSIZE_LIMIT then Failure(OverflowError)
      else if !TableInside(e.phoff, e.phnum, |data|) then Failure(StructError)
      else Success((e, ReadTable(data, e.phoff, e.phnum)))
  }

  method ParseImage(data: seq<Byte>) returns (r: Result<(Ehdr, seq<Phdr>), Error>)
    requires |data| < SSIZE_LIMIT
    ensures r == Parse(data)
  {
    hide ReadEhdr, ReadPhdr;
    if Slice(data, 0, 4) != ELF_MAGIC {
      return Failure(NotElf);
    }
    if |data| == 4 {
      return Failure(IndexError);
    }
    if data[4] != 2 {
      return Failure(UnsupportedClass);
    }
    if |data| == 5 {
      return Failure(IndexError);
    }
    if data[5] != 1 {
      return Failure(UnsupportedClass);
    }
    if |data| < EHDR_SIZE {
      return Failure(StructError);
    }
    var ehdr := ReadEhdr(data);
    var phdrs := [];
    for i := 0 to ehdr.phnum
      invariant TableInside(ehdr.phoff, i, |data|)
      invariant phdrs == ReadTable(data, ehdr.phoff, i)
    {
      if ehdr.phoff + i * PHDR_SIZE >= SSIZE_LIMIT {
        return Failure(OverflowError);
      }
      if ehdr.phoff + i * PHDR_SIZE + PHDR_SIZE > |data| {
        return Failure(StructError);
      }
      phdrs := phdrs + [ReadPhdr(data, ehdr.phoff + i * PHDR_SIZE)];
    }
    return Success((ehdr, phdrs));
  }

  // ---- serialize_image ----

  function SegmentsEnd(ps: seq<Phdr>): (end: nat)
    ensures forall i :: 0 <= i < |ps| ==> ps[i].offset + ps[i].filesz <= end
  {
    if ps == [] then 0 else
      var last := ps[|ps| - 1];
      Max(SegmentsEnd(ps[..|ps| - 1]), last.offset + last.filesz)
  }

  function ImageSize(e: Ehdr, ps: seq<Phdr>): (size: nat)
    ensures size >= EHDR_SIZE && e.phoff + |ps| * PHDR_SIZE <= size
    ensures forall i :: 0 <= i < |ps| ==> ps[i].offset + ps[i].filesz <= size
  {
    Max(SegmentsEnd(ps), Max(EHDR_SIZE, e.phoff + |ps| * PHDR_SIZE))
  }

  function PutContents(img: seq<Byte>, ps: seq<Phdr>): seq<Byte> {
    if ps == [] then img else
      var p := ps[|ps| - 1];
      var before := PutContents(img, ps[..|ps| - 1]);
      if p.content.None? then before else SliceAssign(before, p.offset, p.offset + p.filesz, p.content.value)
  }

  /** struct.pack_into for a whole record. */
  function PackInto(img: seq<Byte>, at: nat, fits: bool, record: seq<Byte>): Result<seq<Byte>, Error> {
    if !fits || at + |record| > |img| then Failure(StructError) else Success(Overwrite(img, at, record))
  }

  function PutTable(img: seq<Byte>, phoff: nat, ps: seq<Phdr>): Result<seq<Byte>, Error> {
    if ps == [] then Success(img) else
      var p := ps[|ps| - 1];
      var before :- PutTable(img, phoff, ps[..|ps| - 1]);
      PackInto(before, phoff + (|ps| - 1) * PHDR_SIZE, PhdrFits(p), PhdrBytes(p))
  }

  function Serialize(e: Ehdr, ps: seq<Phdr>): Result<seq<Byte>, Error> {
    if ps == [] then Failure(ValueError)
    else if ImageSize(e, ps) >= SSIZE_LIMIT then Failure(OverflowError)
    else
      var img := PutContents(Zeros(ImageSize(e, ps)), ps);
      if e.osabi > 255 then Failure(ValueError)
      else
        var headed :- PackInto(img, 0, EhdrFits(e, |ps|), EhdrBytes(e, |ps|));
        PutTable(headed, e.phoff, ps)
  }

  method MeasureImage(e: Ehdr, ps: seq<Phdr>) returns (size: nat)
    ensures size == ImageSize(e, ps)
  {
    size := 0;
    for i := 0 to |ps|
      invariant size == SegmentsEnd(ps[..i])
    {
      assert ps[..i + 1][..i] == ps[..i];
      size := Max(size, ps[i].offset + ps[i].filesz);
    }
    assert ps[..|ps|] == ps;
    size := Max(size, Max(EHDR_SIZE, e.phoff + |ps| * PHDR_SIZE));
  }

  method WriteContents(blank: seq<Byte>, ps: seq<Phdr>) returns (img: seq<Byte>)
    ensures img == PutContents(blank, ps)
  {
    img := blank;
    for i := 0 to |ps|
      invariant img == PutContents(blank, ps[..i])
    {
      assert ps[..i + 1][..i] == ps[..i];
      var p := ps[i];
      if p.content.Some? {
        img := SliceAssign(img, p.offset, p.offset + p.filesz, p.content.value);
      }
    }
    assert ps[..|ps|] == ps;
  }

  method WriteTable(headed: seq<Byte>, phoff: nat, ps: seq<Phdr>) returns (r: Result<seq<Byte>, Error>)
    ensures r == PutTable(headed, phoff, ps)
  {
    hide PhdrFits, PhdrBytes;
    r := Success(headed);
    for i := 0 to |ps|
      invariant r.Success? && r == PutTable(headed, phoff, ps[..i])
    {
      assert ps[..i + 1][..i] == ps[..i];
      r := PackInto(r.value, phoff + i * PHDR_SIZE, PhdrFits(ps[i]), PhdrBytes(ps[i]));
      if r.Failure? {
        PutTableStops(headed, phoff, ps, i + 1);
        return;
      }
    }
    assert ps[..|ps|] == ps;
  }

  method SerializeImage(e: Ehdr, ps: seq<Phdr>) returns (r: Result<seq<Byte>, Error>)
    ensures r == Serialize(e, ps)
  {
    if ps == [] {
      return Failure(ValueError);
    }
    var size := MeasureImage(e, ps);
    if size >= SSIZE_LIMIT {
      return Failure(OverflowError);
    }
    var img := WriteContents(Zeros(size), ps);
    if e.osabi > 255 {
      return Failure(ValueError);
    }
    r := PackInto(img, 0, EhdrFits(e, |ps|), EhdrBytes(e, |ps|));
    if r.Success? {
      r := WriteTable(r.value, e.phoff, ps);
    }
  }

  lemma {:induction false} PutTableStops(img: seq<Byte>, phoff: nat, ps: seq<Phdr>, n: nat)
    requires n <= |ps| && PutTable(img, phoff, ps[..n]).Failure?
    ensures PutTable(img, phoff, ps) == PutTable(img, phoff, ps[..n])
    decreases |ps|
  {
    if n < |ps| {
      assert ps[..|ps| - 1][..n] == ps[..n];
      PutTableStops(img, phoff, ps[..|ps| - 1], n);
    } else {
      assert ps[..n] == ps;
    }
  }
}
