/**
 Which files can be read, and what is read of a section: conditions on the bytes of the file, with the offsets and the
 constants of the System V gABI written out.
 */
module ElfReadable {
  import opened Basics
  import opened ElfTypes
  import opened ElfCoding
  import opened ElfReader
  import opened ElfFormat
  import ElfWriter

  /** How many section headers the file says it has; zero stands for the size in the first of them. */
  function SectionsSaid(image: seq<byte>, e: nat): nat {
    var shoff, shnum := NumberAt(image, 32, 4, e), NumberAt(image, 48, 2, e);
    if shoff == 0 then 0 else if shnum != 0 then shnum else NumberAt(image, shoff + 20, 4, e)
  }

  /** What is wrong with the table of `n` section headers. */
  function SectionsFault(image: seq<byte>, e: nat, n: nat): Option<CookError> {
    var shoff, shnum := NumberAt(image, 32, 4, e), NumberAt(image, 48, 2, e);
    if shoff == 0 then None
    else if shoff > |image| then Some(OutsideFile)
    else if NumberAt(image, 46, 2, e) != 40 then Some(BadShentsize)
    else if shnum == 0 && shoff + 40 > |image| then Some(TruncShdr)
    else if shoff + 40 * n > |image| then Some(TruncShdr)
    else if n == 0 then Some(NoSections)
    else None
  }

  /** How many program headers the file says it has; 0xffff stands for the info of the first section header. */
  function SegmentsSaid(image: seq<byte>, e: nat): nat {
    var phoff, phnum := NumberAt(image, 28, 4, e), NumberAt(image, 44, 2, e);
    if phoff == 0 then 0
    else if phnum != 0xffff then phnum
    else NumberAt(image, NumberAt(image, 32, 4, e) + 28, 4, e)
  }

  /** What is wrong with the table of `n` program headers. */
  function SegmentsFault(image: seq<byte>, e: nat, n: nat): Option<CookError> {
    var phoff, phnum, shoff := NumberAt(image, 28, 4, e), NumberAt(image, 44, 2, e), NumberAt(image, 32, 4, e);
    if phoff == 0 then None
    else if phnum == 0xffff && shoff == 0 then Some(NoSuchScn)
    else if NumberAt(image, 42, 2, e) != 32 then Some(BadPhentsize)
    else if n == 0 then None
    else if phoff > |image| then Some(OutsideFile)
    else if phoff + 32 * n > |image| then Some(TruncPhdr)
    else None
  }

  /** Magic, version, byte order and class, and the length of a file header. */
  function IdentFault(image: seq<byte>): Option<CookError> {
    if |image| < 16 || image[..4] != [0x7f, 0x45, 0x4c, 0x46] then Some(NotElf)
    else if image[6] != 1 then Some(UnknownVersion)
    else if image[5] != 1 && image[5] != 2 then Some(UnknownEncoding)
    else if image[4] != 1 then Some(if image[4] == 2 then OtherClass else UnknownClass)
    else if |image| < 52 then Some(TruncEhdr)
    else None
  }

  /** Why a file cannot be read. */
  function Fault(image: seq<byte>): Option<CookError> {
    if IdentFault(image).Some? then IdentFault(image)
    else
      var e := image[5];
      var sections := SectionsFault(image, e, SectionsSaid(image, e));
      if sections.Some? then sections else SegmentsFault(image, e, SegmentsSaid(image, e))
  }

  ghost predicate FaultOf<T>(r: Cooked<T>, fault: Option<CookError>) {
    match fault
    case None => r.Cooked?
    case Some(error) => r == Spoiled(error)
  }

  lemma HeaderOf(image: seq<byte>, h: Ehdr, e: nat)
    requires |image| >= 52 && h == LoadEhdr(image[..52], e)
    ensures EhdrIn(h, image, e)
  {
    EhdrFormat(image[..52], e);
    EhdrOfImage(image, h, image[..52], e);
  }

  lemma FirstSection(image: seq<byte>, h: Ehdr, e: nat)
    requires EhdrIn(h, image, e) && h.shoff + 40 <= |image|
    ensures var first := ShdrAt(image, h.shoff, e);
            && first.size == NumberAt(image, NumberAt(image, 32, 4, e) + 20, 4, e)
            && first.info == NumberAt(image, NumberAt(image, 32, 4, e) + 28, 4, e)
  {
    ShdrFormat(image, h.shoff, e);
  }

  lemma SectionsRead(image: seq<byte>, h: Ehdr, e: nat, n: nat, r: Cooked<seq<Shdr>>)
    requires EhdrIn(h, image, e) && n == SectionsSaid(image, e) && r == Shdrs(image, h, e)
    ensures FaultOf(r, SectionsFault(image, e, n))
    ensures r.Cooked? ==> |r.value| == n
    ensures r.Cooked? && r.value != [] ==>
              h.shoff + 40 <= |image| && h.shoff != 0 && r.value[0] == ShdrAt(image, h.shoff, e)
  {
    if h.shoff + 40 <= |image| {
      FirstSection(image, h, e);
    }
    assert ShdrBytes(n) == 40 * n && ShdrBytes(0) == 0;
  }

  lemma SegmentsRead(image: seq<byte>, h: Ehdr, e: nat, shdrs: seq<Shdr>, n: nat, r: Cooked<seq<Phdr>>)
    requires EhdrIn(h, image, e) && Shdrs(image, h, e) == Cooked(shdrs)
    requires n == SegmentsSaid(image, e) && r == Phdrs(image, h, shdrs, e)
    ensures FaultOf(r, SegmentsFault(image, e, n))
    ensures r.Cooked? ==> |r.value| == n
  {
    SectionsRead(image, h, e, SectionsSaid(image, e), Cooked(shdrs));
    if shdrs != [] {
      FirstSection(image, h, e);
    }
    assert PhdrBytes(n) == 32 * n;
  }

  /** A file can be read just if nothing is wrong with its identification and its two tables, which have to have the
      right entry sizes and to lie inside it; otherwise the first fault is reported. */
  lemma ReadableExactly(image: seq<byte>)
    ensures FaultOf(CookFile(image), Fault(image))
  {
    if IdentFault(image).None? {
      var e: nat := image[5];
      var h := LoadEhdr(image[..52], e);
      HeaderOf(image, h, e);
      var shdrs := Shdrs(image, h, e);
      SectionsRead(image, h, e, SectionsSaid(image, e), shdrs);
      if shdrs.Cooked? {
        SegmentsRead(image, h, e, shdrs.value, SegmentsSaid(image, e), Phdrs(image, h, shdrs.value, e));
      }
    }
  }

  /** As many headers are read as the file says it has. */
  lemma AllHeadersRead(image: seq<byte>, hs: Headers)
    requires CookFile(image) == Cooked(hs)
    ensures |hs.shdrs| == SectionsSaid(image, image[5]) && |hs.phdrs| == SegmentsSaid(image, image[5])
  {
    var e: nat := image[5];
    HeaderOf(image, hs.ehdr, e);
    SectionsRead(image, hs.ehdr, e, SectionsSaid(image, e), Cooked(hs.shdrs));
    SegmentsRead(image, hs.ehdr, e, hs.shdrs, SegmentsSaid(image, e), Cooked(hs.phdrs));
  }

  // ----- Section contents -----

  /** Whole entries of sections of this type in `n` bytes. */
  function WholeEntries(stype: Word, n: nat): nat {
    if EntrySize(stype) == 0 then n else n - n % EntrySize(stype)
  }

  /** The fields of the entries of sections that are not version records. */
  lemma EntryFields(stype: Word, ws: seq<nat>)
    requires stype !in {0x6fff_fffd, 0x6fff_fffe} && ws == ElfTypes.Fields(SectionType(stype))
    ensures ElfWriter.KindOf(SectionType(stype)).None? && Size(ws) == EntrySize(stype)
  {
    SmallSizes(ws);
    assert Size([]) == 0;
  }

  lemma WholeIsRest(len: nat, size: nat)
    requires size > 0
    ensures Whole(len, size) == len - len % size
  {
    assert len == len / size * size + len % size;
  }

  lemma EntriesRecoded(b: seq<byte>, ws: seq<nat>, size: nat, encoding: nat, native: nat, r: seq<byte>)
    requires r == RecodeArray(b, ws, encoding, native) && size == Size(ws)
    ensures size == 0 ==> r == b
    ensures size != 0 ==> |r| == |b| - |b| % size
  {
    if size != 0 {
      WholeIsRest(|b|, size);
    }
  }

  /** A null section has no data, and neither has one that starts outside the file. Other sections without bytes in the
      file have none, but a size. */
  lemma NoDataExactly(image: seq<byte>, h: Shdr, index: nat, encoding: nat, native: nat, c: Cooked<Contents>)
    requires c == GetData(image, h, index, encoding, native)
    ensures index == 0 || h.stype == 0 ==> c == Spoiled(NullScn)
    ensures index != 0 && h.stype != 0 && h.offset > |image| ==> c == Spoiled(OutsideFile)
    ensures index != 0 && h.stype != 0 && h.offset <= |image| && (h.stype == 8 || h.size == 0) ==>
              c == Cooked(NoBytes(SectionType(h.stype), h.size))
  {
  }

  /** The bytes of a section, other than version records, can be read just if they lie inside the file. All of them are
      read that are whole entries. */
  lemma DataExactly(image: seq<byte>, h: Shdr, index: nat, encoding: nat, native: nat, c: Cooked<Contents>, end: nat)
    requires c == GetData(image, h, index, encoding, native) && end == h.offset + h.size
    requires index != 0 && h.size > 0 && h.stype !in {0, 8, 0x6fff_fffd, 0x6fff_fffe}
    ensures c.Cooked? <==> end <= |image|
    ensures h.offset <= |image| < end ==> c == Spoiled(TruncScn)
    ensures c.Cooked? ==> c.value.Contents? && |c.value.bytes| == WholeEntries(h.stype, h.size)
    ensures c.Cooked? && EntrySize(h.stype) == 0 ==> c.value.bytes == image[h.offset..end]
  {
    if end <= |image| {
      BytesRead(image, h, index, encoding, native, c, end, image[h.offset..end]);
    }
  }

  lemma BytesRead(image: seq<byte>, h: Shdr, index: nat, encoding: nat, native: nat, c: Cooked<Contents>, end: nat,
                  b: seq<byte>)
    requires c == GetData(image, h, index, encoding, native) && end == h.offset + h.size <= |image|
    requires index != 0 && h.size > 0 && h.stype !in {0, 8, 0x6fff_fffd, 0x6fff_fffe} && b == image[h.offset..end]
    ensures c.Cooked? && c.value.Contents? && |c.value.bytes| == WholeEntries(h.stype, h.size)
    ensures EntrySize(h.stype) == 0 ==> c.value.bytes == b
  {
    var t, ws := SectionType(h.stype), ElfTypes.Fields(SectionType(h.stype));
    EntryFields(h.stype, ws);
    OfItsBytes(image, h, index, encoding, native, t, end, b);
    EntriesRecoded(b, ws, EntrySize(h.stype), encoding, native, RecodeArray(b, ws, encoding, native));
  }

  lemma OfItsBytes(image: seq<byte>, h: Shdr, index: nat, encoding: nat, native: nat, t: ElfType, end: nat,
                   b: seq<byte>)
    requires t == SectionType(h.stype) && end == h.offset + h.size <= |image| && b == image[h.offset..end]
    requires index != 0 && h.size > 0 && h.stype !in {0, 8}
    ensures GetData(image, h, index, encoding, native) == AsContents(t, ToMemory(t, b, encoding, native))
  {
    assert FromFile(image, h, encoding, native) == ToMemory(t, b, encoding, native);
  }
}
