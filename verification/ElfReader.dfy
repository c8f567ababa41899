/**
 Reading an ELF file of class 32: the header, the section headers and the program headers with
 their escaped counts, and the contents of sections.
 */
module ElfReader {
  import opened Basics
  import opened ElfTypes
  import opened ElfCoding
  import opened ElfPatches
  import opened ElfVersions
  import opened ElfVersionsXlt
  import opened ElfVersionsOverlap
  import opened ElfMirrors
  import opened ElfWriter

  datatype CookError =
    | NotElf | UnknownVersion | UnknownEncoding | UnknownClass | OtherClass
    | OutsideFile | TruncEhdr | TruncPhdr | TruncShdr | TruncScn
    | BadShentsize | BadPhentsize | NoSuchScn | NullScn | BadVersionRecords(records: WalkError)
    | NoSections  // a section header table without entries, for which the reader's behaviour is undefined

  datatype Cooked<+T> = Cooked(value: T) | Spoiled(error: CookError)

  datatype Headers = Headers(ehdr: Ehdr, shdrs: seq<Shdr>, phdrs: seq<Phdr>)

  // ----- Headers -----

  function ShdrAt(image: seq<byte>, off: nat, encoding: nat): Shdr
    requires off + SHDR_SIZE <= |image|
  {
    LoadShdr(image[off..off + SHDR_SIZE], encoding)
  }

  function PhdrAt(image: seq<byte>, off: nat, encoding: nat): Phdr
    requires off + PHDR_SIZE <= |image|
  {
    LoadPhdr(image[off..off + PHDR_SIZE], encoding)
  }

  function ShdrTable(image: seq<byte>, off: nat, num: nat, encoding: nat): (hs: seq<Shdr>)
    requires off + ShdrBytes(num) <= |image|
    ensures |hs| == num
  {
    seq(num, i requires 0 <= i < num => ShdrAt(image, off + ShdrBytes(i), encoding))
  }

  function PhdrTable(image: seq<byte>, off: nat, num: nat, encoding: nat): (hs: seq<Phdr>)
    requires off + PhdrBytes(num) <= |image|
    ensures |hs| == num
  {
    seq(num, i requires 0 <= i < num => PhdrAt(image, off + PhdrBytes(i), encoding))
  }

  /** The number of section headers: if the header says zero, the first section header has it. */
  function SectionCount(image: seq<byte>, h: Ehdr, encoding: nat): Cooked<nat> {
    if h.shnum != 0 then Cooked(h.shnum)
    else if h.shoff + SHDR_SIZE > |image| then Spoiled(TruncShdr)
    else Cooked(ShdrAt(image, h.shoff, encoding).size)
  }

  function Shdrs(image: seq<byte>, h: Ehdr, encoding: nat): Cooked<seq<Shdr>> {
    if h.shoff == 0 then Cooked([])
    else if h.shoff > |image| then Spoiled(OutsideFile)
    else if h.shentsize != SHDR_SIZE then Spoiled(BadShentsize)
    else
      match SectionCount(image, h, encoding)
      case Spoiled(e) => Spoiled(e)
      case Cooked(num) =>
        if h.shoff + ShdrBytes(num) > |image| then Spoiled(TruncShdr)
        else if num == 0 then Spoiled(NoSections)
        else Cooked(ShdrTable(image, h.shoff, num, encoding))
  }

  /** The number of program headers: the value that cannot be a count sends the reader to the first
      section header. */
  function SegmentCount(h: Ehdr, shdrs: seq<Shdr>): Cooked<nat> {
    if h.phnum != PN_XNUM then Cooked(h.phnum)
    else if shdrs == [] then Spoiled(NoSuchScn)
    else Cooked(shdrs[0].info)
  }

  function PhdrsFrom(image: seq<byte>, off: nat, num: nat, encoding: nat): Cooked<seq<Phdr>> {
    if num == 0 then Cooked([])
    else if off > |image| then Spoiled(OutsideFile)
    else if off + PhdrBytes(num) > |image| then Spoiled(TruncPhdr)
    else Cooked(PhdrTable(image, off, num, encoding))
  }

  function Phdrs(image: seq<byte>, h: Ehdr, shdrs: seq<Shdr>, encoding: nat): Cooked<seq<Phdr>> {
    if h.phoff == 0 then Cooked([])
    else
      match SegmentCount(h, shdrs)
      case Spoiled(e) => Spoiled(e)
      case Cooked(num) =>
        if h.phentsize != PHDR_SIZE then Spoiled(BadPhentsize)
        else PhdrsFrom(image, h.phoff, num, encoding)
  }

  predicate HasMagic(image: seq<byte>) {
    |image| >= EI_NIDENT && image[..4] == [0x7f, 0x45, 0x4c, 0x46]
  }

  function CookFile(image: seq<byte>): Cooked<Headers> {
    if !HasMagic(image) then Spoiled(NotElf)
    else
      var encoding := image[EI_DATA];
      if image[EI_VERSION] != EV_CURRENT then Spoiled(UnknownVersion)
      else if encoding != ELFDATA2LSB && encoding != ELFDATA2MSB then Spoiled(UnknownEncoding)
      else if image[EI_CLASS] != ELFCLASS32 then Spoiled(if image[EI_CLASS] == 2 then OtherClass else UnknownClass)
      else if |image| < EHDR_SIZE then Spoiled(TruncEhdr)
      else
        var ehdr := LoadEhdr(image[..EHDR_SIZE], encoding);
        match Shdrs(image, ehdr, encoding)
        case Spoiled(e) => Spoiled(e)
        case Cooked(shdrs) =>
          match Phdrs(image, ehdr, shdrs, encoding)
          case Spoiled(e) => Spoiled(e)
          case Cooked(phdrs) => Cooked(Headers(ehdr, shdrs, phdrs))
  }

  // ----- Section contents -----

  datatype Contents = Contents(dtype: ElfType, bytes: seq<byte>) | NoBytes(dtype: ElfType, size: nat)

  /** Translation to memory where the bytes are. Version records are read and written one by one, so a record that
      overlaps one before it is read as that one was written. */
  function ToMemory(t: ElfType, b: seq<byte>, encoding: nat, native: nat): (r: Cooked<seq<byte>>)
    ensures r.Cooked? ==> |r.value| <= |b|
  {
    match KindOf(t)
    case None => Cooked(RecodeArray(b, Fields(t), encoding, native))
    case Some(kind) =>
      var r := TranslateFrom(kind, Buffers(b, b, true), encoding, native, 0);
      if r.error.Some? then Spoiled(BadVersionRecords(r.error.value)) else Cooked(r.buffers.dst)
  }

  function FromFile(image: seq<byte>, h: Shdr, encoding: nat, native: nat): (r: Cooked<seq<byte>>)
    ensures r.Cooked? ==> h.offset + |r.value| <= h.offset + h.size <= |image|
  {
    var end := h.offset + h.size;
    if end > |image| then Spoiled(TruncScn)
    else ToMemory(SectionType(h.stype), image[h.offset..end], encoding, native)
  }

  lemma SameBytesFromFile(image: seq<byte>, other: seq<byte>, h: Shdr, encoding: nat, native: nat, end: nat)
    requires |other| == |image| && end == h.offset + h.size
    requires end <= |image| ==> other[h.offset..end] == image[h.offset..end]
    ensures FromFile(other, h, encoding, native) == FromFile(image, h, encoding, native)
  {
  }

  /** The data of section `index`, read from the image and translated. */
  function GetData(image: seq<byte>, h: Shdr, index: nat, encoding: nat, native: nat): (r: Cooked<Contents>)
    ensures r.Cooked? && r.value.Contents? ==> h.offset + |r.value.bytes| <= |image|
  {
    var t := SectionType(h.stype);
    if index == SHN_UNDEF || h.stype == SHT_NULL then Spoiled(NullScn)
    else if h.offset > |image| then Spoiled(OutsideFile)
    else if h.stype == SHT_NOBITS || h.size == 0 then Cooked(NoBytes(t, h.size))
    else AsContents(t, FromFile(image, h, encoding, native))
  }

  function AsContents(t: ElfType, c: Cooked<seq<byte>>): Cooked<Contents> {
    match c
    case Spoiled(e) => Spoiled(e)
    case Cooked(b) => Cooked(Contents(t, b))
  }

  /** The image after the data `c` of a section was read: the translated bytes are where the file had its own. */
  function Touched(image: seq<byte>, h: Shdr, c: Cooked<Contents>): (r: seq<byte>)
    requires c.Cooked? && c.value.Contents? ==> h.offset + |c.value.bytes| <= |image|
    ensures |r| == |image|
  {
    if c.Cooked? && c.value.Contents? then Patch(image, Piece(h.offset, c.value.bytes)) else image
  }

  lemma PatchedWithItself(image: seq<byte>, at: nat, end: nat, b: seq<byte>, n: nat)
    requires at <= end <= |image| && b == image[at..end] && n <= |b|
    ensures Patch(image, Piece(at, b[..n])) == image
  {
    SliceOfSlice(image, at, end, 0, n);
    assert b[..n] == image[at..at + n];
  }

  lemma DataIsShort(image: seq<byte>, h: Shdr, index: nat, encoding: nat, native: nat, c: Cooked<Contents>)
    requires c == GetData(image, h, index, encoding, native)
    ensures c.Cooked? && c.value.Contents? ==> |c.value.bytes| <= h.size
  {
  }

  lemma SameOrderArray(b: seq<byte>, ws: seq<nat>, from: nat, to: nat, r: seq<byte>)
    requires SameOrder(from, to) && r == RecodeArray(b, ws, from, to)
    ensures r == b[..|r|]
  {
    if Size(ws) > 0 {
      forall i | 0 <= i < |r|
        ensures r[i] == b[i]
      {
        ArrayByte(b, ws, from, to, i, r);
      }
    }
  }

  lemma NativeBytes(t: ElfType, b: seq<byte>, encoding: nat, native: nat, c: Cooked<seq<byte>>)
    requires SameOrder(encoding, native) && c == ToMemory(t, b, encoding, native)
    ensures c.Cooked? ==> |c.value| <= |b| && c.value == b[..|c.value|]
  {
    match KindOf(t)
    case None =>
      SameOrderArray(b, Fields(t), encoding, native, c.value);
    case Some(kind) =>
      RecordsUntouched(kind, Buffers(b, b, true), encoding, native, 0,
                       TranslateFrom(kind, Buffers(b, b, true), encoding, native, 0));
  }

  lemma GotContents(image: seq<byte>, h: Shdr, index: nat, encoding: nat, native: nat, c: Cooked<Contents>, end: nat)
    requires c == GetData(image, h, index, encoding, native)
    requires c.Cooked? && c.value.Contents? && end == h.offset + h.size
    ensures end <= |image|
    ensures ToMemory(SectionType(h.stype), image[h.offset..end], encoding, native) == Cooked(c.value.bytes)
  {
  }

  lemma NativeData(image: seq<byte>, h: Shdr, index: nat, encoding: nat, native: nat, c: Cooked<Contents>, end: nat)
    requires SameOrder(encoding, native) && c == GetData(image, h, index, encoding, native)
    requires c.Cooked? && c.value.Contents? && end == h.offset + h.size
    ensures end <= |image| && |c.value.bytes| <= end - h.offset
    ensures c.value.bytes == image[h.offset..end][..|c.value.bytes|]
  {
    GotContents(image, h, index, encoding, native, c, end);
    NativeBytes(SectionType(h.stype), image[h.offset..end], encoding, native, Cooked(c.value.bytes));
  }

  /** Reading data of the host's own encoding leaves the image as it is. */
  lemma NativeDataUntouched(image: seq<byte>, h: Shdr, index: nat, encoding: nat, native: nat)
    requires SameOrder(encoding, native)
    ensures Touched(image, h, GetData(image, h, index, encoding, native)) == image
  {
    var c, end := GetData(image, h, index, encoding, native), h.offset + h.size;
    if c.Cooked? && c.value.Contents? {
      NativeData(image, h, index, encoding, native, c, end);
      PatchedWithItself(image, h.offset, end, image[h.offset..end], |c.value.bytes|);
    }
  }

  predicate ApartInFile(h: Shdr, g: Shdr) {
    h.offset + h.size <= g.offset || g.offset + g.size <= h.offset
  }

  /** What is read of a section is read of its own bytes. */
  lemma SameBytesSameData(image: seq<byte>, other: seq<byte>, g: Shdr, j: nat, encoding: nat, native: nat)
    requires |other| == |image|
    requires g.offset + g.size <= |image| ==>
               other[g.offset..g.offset + g.size] == image[g.offset..g.offset + g.size]
    ensures GetData(other, g, j, encoding, native) == GetData(image, g, j, encoding, native)
  {
    SameBytesFromFile(image, other, g, encoding, native, g.offset + g.size);
  }

  lemma TouchedElsewhere(image: seq<byte>, h: Shdr, c: Cooked<Contents>, g: Shdr)
    requires c.Cooked? && c.value.Contents? ==> h.offset + |c.value.bytes| <= |image| && |c.value.bytes| <= h.size
    requires ApartInFile(h, g) && g.offset + g.size <= |image|
    ensures Touched(image, h, c)[g.offset..g.offset + g.size] == image[g.offset..g.offset + g.size]
  {
  }

  /** Reading the data of one section does not disturb another that it does not overlap. */
  lemma OtherDataUntouched(image: seq<byte>, h: Shdr, i: nat, g: Shdr, j: nat, encoding: nat, native: nat)
    requires ApartInFile(h, g)
    ensures GetData(Touched(image, h, GetData(image, h, i, encoding, native)), g, j, encoding, native)
         == GetData(image, g, j, encoding, native)
  {
    var c := GetData(image, h, i, encoding, native);
    DataIsShort(image, h, i, encoding, native, c);
    if g.offset + g.size <= |image| {
      TouchedElsewhere(image, h, c, g);
    }
    SameBytesSameData(image, Touched(image, h, c), g, j, encoding, native);
  }

  // ----- The reader's loops -----

  /** Reads the section headers from the last one to the first. */
  method LoadShdrs(image: seq<byte>, off: nat, num: nat, encoding: nat) returns (shdrs: seq<Shdr>)
    requires off + ShdrBytes(num) <= |image|
    ensures shdrs == ShdrTable(image, off, num, encoding)
  {
    var i := num;
    shdrs := [];
    while i > 0
      invariant 0 <= i <= num && |shdrs| == num - i
      invariant forall k :: 0 <= k < |shdrs| ==> shdrs[k] == ShdrTable(image, off, num, encoding)[i + k]
    {
      i := i - 1;
      shdrs := [ShdrAt(image, off + ShdrBytes(i), encoding)] + shdrs;
    }
  }

  method ReadShdrs(image: seq<byte>, h: Ehdr, encoding: nat) returns (r: Cooked<seq<Shdr>>)
    ensures r == Shdrs(image, h, encoding)
  {
    if h.shoff == 0 {
      return Cooked([]);
    }
    if h.shoff > |image| {
      return Spoiled(OutsideFile);
    }
    if h.shentsize != SHDR_SIZE {
      return Spoiled(BadShentsize);
    }
    var num: nat := h.shnum;
    if num == 0 {
      if |image| - h.shoff < SHDR_SIZE {
        return Spoiled(TruncShdr);
      }
      num := ShdrAt(image, h.shoff, encoding).size;
    }
    if (|image| - h.shoff) / SHDR_SIZE < num {
      return Spoiled(TruncShdr);
    }
    if num == 0 {
      return Spoiled(NoSections);
    }
    var shdrs := LoadShdrs(image, h.shoff, num, encoding);
    r := Cooked(shdrs);
  }

  method LoadPhdrs(image: seq<byte>, from: nat, num: nat, encoding: nat) returns (r: Cooked<seq<Phdr>>)
    ensures r == PhdrsFrom(image, from, num, encoding)
  {
    var phdrs, i := [], 0;
    while i < num
      invariant 0 <= i <= num && |phdrs| == i
      invariant i > 0 ==> from + PhdrBytes(i) <= |image|
      invariant forall k :: 0 <= k < i ==> phdrs[k] == PhdrAt(image, from + PhdrBytes(k), encoding)
    {
      var off := from + PhdrBytes(i);
      if off > |image| {
        return Spoiled(OutsideFile);
      }
      if |image| - off < PHDR_SIZE {
        return Spoiled(TruncPhdr);
      }
      phdrs := phdrs + [PhdrAt(image, off, encoding)];
      i := i + 1;
    }
    assert num > 0 ==> phdrs == PhdrTable(image, from, num, encoding);
    r := Cooked(phdrs);
  }

  method ReadPhdrs(image: seq<byte>, h: Ehdr, shdrs: seq<Shdr>, encoding: nat) returns (r: Cooked<seq<Phdr>>)
    ensures r == Phdrs(image, h, shdrs, encoding)
  {
    if h.phoff == 0 {
      return Cooked([]);
    }
    var num: nat := h.phnum;
    if num == PN_XNUM {
      if shdrs == [] {
        return Spoiled(NoSuchScn);
      }
      num := shdrs[0].info;
    }
    if h.phentsize != PHDR_SIZE {
      return Spoiled(BadPhentsize);
    }
    r := LoadPhdrs(image, h.phoff, num, encoding);
  }

  /** The section headers come first: the count of program headers may be in one of them. */
  method Cook(image: seq<byte>) returns (r: Cooked<Headers>)
    ensures r == CookFile(image)
  {
    if !HasMagic(image) {
      return Spoiled(NotElf);
    }
    var encoding := image[EI_DATA];
    if image[EI_VERSION] != EV_CURRENT {
      return Spoiled(UnknownVersion);
    } else if encoding != ELFDATA2LSB && encoding != ELFDATA2MSB {
      return Spoiled(UnknownEncoding);
    } else if image[EI_CLASS] != ELFCLASS32 {
      return Spoiled(if image[EI_CLASS] == 2 then OtherClass else UnknownClass);
    } else if |image| < EHDR_SIZE {
      return Spoiled(TruncEhdr);
    }
    var ehdr := LoadEhdr(image[..EHDR_SIZE], encoding);
    var shdrs := ReadShdrs(image, ehdr, encoding);
    if shdrs.Spoiled? {
      return Spoiled(shdrs.error);
    }
    var phdrs := ReadPhdrs(image, ehdr, shdrs.value, encoding);
    if phdrs.Spoiled? {
      return Spoiled(phdrs.error);
    }
    r := Cooked(Headers(ehdr, shdrs.value, phdrs.value));
  }
}
