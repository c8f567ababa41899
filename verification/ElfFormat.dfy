/**
 Where everything is in the bytes of a file of class 32: the offsets of the System V gABI, chapters 4 and 5, written
 out as numbers.
 */
module ElfFormat {
  import opened Basics
  import opened ElfTypes
  import opened ElfCoding
  import opened ElfArrays
  import opened ElfMirrors
  import opened ElfVersions
  import opened ElfReader
  import ElfLayout
  import ElfLayoutLaws
  import ElfWriter

  /** The number in the `width` bytes of `b` from `off` on. */
  function NumberAt(b: seq<byte>, off: nat, width: nat, encoding: nat): nat {
    if off + width <= |b| then Load(b[off..off + width], encoding) else 0
  }

  lemma FieldNumber(b: seq<byte>, ws: seq<nat>, k: nat, off: nat, encoding: nat)
    requires |b| == Size(ws) && k < |ws| && off == Off(ws, k)
    ensures off + ws[k] <= |b| && LoadAll(b, ws, encoding)[k] == NumberAt(b, off, ws[k], encoding)
    ensures LoadAll(b, ws, encoding)[k] < Range(ws[k])
  {
    LoadedField(b, ws, encoding, k);
    FieldIsThere(b, ws, k, off, encoding);
    InItsRange(b, ws, k, encoding);
  }

  lemma FieldIsThere(b: seq<byte>, ws: seq<nat>, k: nat, off: nat, encoding: nat)
    requires k < |ws| && off == Off(ws, k) && Off(ws, k + 1) <= |b|
    ensures off + ws[k] <= |b| && Load(Field(b, ws, k), encoding) == NumberAt(b, off, ws[k], encoding)
  {
    assert Off(ws, k + 1) == off + ws[k];
  }

  lemma InItsRange(b: seq<byte>, ws: seq<nat>, k: nat, encoding: nat)
    requires |b| == Size(ws) && k < |ws|
    ensures LoadAll(b, ws, encoding)[k] < Range(ws[k])
  {
    LoadedAll(b, ws, encoding);
  }

  /** The same number in a piece of a larger whole. */
  lemma NumberInside(b: seq<byte>, lo: nat, hi: nat, off: nat, width: nat, at: nat, encoding: nat)
    requires lo <= hi <= |b| && off + width <= hi - lo && at == lo + off
    ensures NumberAt(b[lo..hi], off, width, encoding) == NumberAt(b, at, width, encoding)
  {
    SliceOfSlice(b, lo, hi, off, off + width);
  }

  // ----- The file header -----

  ghost predicate EhdrIn(h: Ehdr, b: seq<byte>, e: nat) {
    |b| >= 52 && b[..16] == h.ident && StartIn(h, b, e) && CountsIn(h, b, e)
  }

  ghost predicate StartIn(h: Ehdr, b: seq<byte>, e: nat) {
    && h.etype == NumberAt(b, 16, 2, e) && h.machine == NumberAt(b, 18, 2, e) && h.version == NumberAt(b, 20, 4, e)
    && h.entry == NumberAt(b, 24, 4, e) && h.phoff == NumberAt(b, 28, 4, e) && h.shoff == NumberAt(b, 32, 4, e)
    && h.flags == NumberAt(b, 36, 4, e)
  }

  ghost predicate CountsIn(h: Ehdr, b: seq<byte>, e: nat) {
    && h.ehsize == NumberAt(b, 40, 2, e) && h.phentsize == NumberAt(b, 42, 2, e) && h.phnum == NumberAt(b, 44, 2, e)
    && h.shentsize == NumberAt(b, 46, 2, e) && h.shnum == NumberAt(b, 48, 2, e) && h.shstrndx == NumberAt(b, 50, 2, e)
  }

  lemma {:induction false} OnesOff(ws: seq<nat>, k: nat)
    requires k <= |ws| && forall i :: 0 <= i < k ==> ws[i] == 1
    ensures Off(ws, k) == k
  {
    if k > 0 {
      OnesOff(ws, k - 1);
    }
  }

  lemma EhdrOffsets(ws: seq<nat>)
    requires ws == ElfTypes.Fields(TEhdr)
    ensures |ws| == 29 && (forall i :: 0 <= i < 16 ==> ws[i] == 1 && Off(ws, i) == i)
    ensures Off(ws, 16) == 16 && Off(ws, 17) == 18 && Off(ws, 18) == 20 && Off(ws, 19) == 24 && Off(ws, 20) == 28
    ensures Off(ws, 21) == 32 && Off(ws, 22) == 36 && Off(ws, 23) == 40 && Off(ws, 24) == 42 && Off(ws, 25) == 44
    ensures Off(ws, 26) == 46 && Off(ws, 27) == 48 && Off(ws, 28) == 50
    ensures ws[16..] == [2, 2, 4, 4, 4, 4, 4, 2, 2, 2, 2, 2, 2]
  {
    forall i | 0 <= i <= 16
      ensures Off(ws, i) == i
    {
      OnesOff(ws, i);
    }
    assert Off(ws, 17) == 18 && Off(ws, 18) == 20;
    assert Off(ws, 19) == 24 && Off(ws, 20) == 28;
    assert Off(ws, 21) == 32 && Off(ws, 22) == 36;
    assert Off(ws, 23) == 40 && Off(ws, 24) == 42;
    assert Off(ws, 25) == 44 && Off(ws, 26) == 46;
  }

  lemma IdentBytes(b: seq<byte>, encoding: nat, i: nat)
    requires |b| == 52 && i < 16
    ensures |ElfTypes.Fields(TEhdr)| == 29 && Size(ElfTypes.Fields(TEhdr)) == 52
    ensures LoadAll(b, ElfTypes.Fields(TEhdr), encoding)[i] == b[i]
  {
    var ws := ElfTypes.Fields(TEhdr);
    EhdrSize();
    EhdrOffsets(ws);
    FieldNumber(b, ws, i, i, encoding);
    assert b[i..i + 1] == [b[i]] && Reverse([b[i]]) == [b[i]] && LittleValue([b[i]]) == b[i];
  }

  lemma EhdrField(b: seq<byte>, encoding: nat, vs: seq<nat>, k: nat, off: nat, width: nat, ws: seq<nat>)
    requires |b| == 52 && ws == ElfTypes.Fields(TEhdr) && k < |ws| && Off(ws, k) == off && ws[k] == width
    requires Size(ws) == 52 && vs == LoadAll(b, ws, encoding)
    ensures vs[k] == NumberAt(b, off, width, encoding) < Range(width)
  {
    FieldNumber(b, ws, k, off, encoding);
  }

  lemma EhdrWidths(ws: seq<nat>)
    requires ws == ElfTypes.Fields(TEhdr)
    ensures |ws| == 29 && ws[16] == 2 && ws[17] == 2 && ws[18] == 4 && ws[19] == 4 && ws[20] == 4 && ws[21] == 4
    ensures ws[22] == 4 && ws[23] == 2 && ws[24] == 2 && ws[25] == 2 && ws[26] == 2 && ws[27] == 2 && ws[28] == 2
  {
  }

  lemma StartFormat(b: seq<byte>, encoding: nat, vs: seq<nat>, ws: seq<nat>)
    requires |b| == 52 && ws == ElfTypes.Fields(TEhdr) && Size(ws) == 52 && vs == LoadAll(b, ws, encoding)
    ensures |vs| == 29 && StartIn(EhdrFrom(vs), b, encoding)
  {
    EhdrOffsets(ws);
    EhdrWidths(ws);
    Ranges();
    EhdrField(b, encoding, vs, 16, 16, 2, ws);
    EhdrField(b, encoding, vs, 17, 18, 2, ws);
    EhdrField(b, encoding, vs, 18, 20, 4, ws);
    EhdrField(b, encoding, vs, 19, 24, 4, ws);
    EhdrField(b, encoding, vs, 20, 28, 4, ws);
    EhdrField(b, encoding, vs, 21, 32, 4, ws);
    EhdrField(b, encoding, vs, 22, 36, 4, ws);
  }

  lemma CountsFormat(b: seq<byte>, encoding: nat, vs: seq<nat>, ws: seq<nat>)
    requires |b| == 52 && ws == ElfTypes.Fields(TEhdr) && Size(ws) == 52 && vs == LoadAll(b, ws, encoding)
    ensures |vs| == 29 && CountsIn(EhdrFrom(vs), b, encoding)
  {
    EhdrOffsets(ws);
    EhdrWidths(ws);
    Ranges();
    EhdrField(b, encoding, vs, 23, 40, 2, ws);
    EhdrField(b, encoding, vs, 24, 42, 2, ws);
    EhdrField(b, encoding, vs, 25, 44, 2, ws);
    EhdrField(b, encoding, vs, 26, 46, 2, ws);
    EhdrField(b, encoding, vs, 27, 48, 2, ws);
    EhdrField(b, encoding, vs, 28, 50, 2, ws);
  }

  /** The file header is read from, and so written to, these offsets. */
  lemma EhdrFormat(b: seq<byte>, encoding: nat)
    requires |b| == 52
    ensures EhdrIn(LoadEhdr(b, encoding), b, encoding)
  {
    var ws := ElfTypes.Fields(TEhdr);
    EhdrSize();
    var vs := LoadAll(b, ws, encoding);
    forall i | 0 <= i < 16
      ensures vs[i] == b[i]
    {
      IdentBytes(b, encoding, i);
    }
    assert b[..16] == EhdrFrom(vs).ident;
    StartFormat(b, encoding, vs, ws);
    CountsFormat(b, encoding, vs, ws);
  }

  // ----- Program headers and section headers -----

  ghost predicate PhdrIn(h: Phdr, b: seq<byte>, at: nat, e: nat) {
    && at + 32 <= |b|
    && h.ptype == NumberAt(b, at, 4, e) && h.offset == NumberAt(b, at + 4, 4, e)
    && h.vaddr == NumberAt(b, at + 8, 4, e) && h.paddr == NumberAt(b, at + 12, 4, e)
    && h.filesz == NumberAt(b, at + 16, 4, e) && h.memsz == NumberAt(b, at + 20, 4, e)
    && h.flags == NumberAt(b, at + 24, 4, e) && h.align == NumberAt(b, at + 28, 4, e)
  }

  ghost predicate ShdrIn(h: Shdr, b: seq<byte>, at: nat, e: nat) {
    && at + 40 <= |b|
    && h.name == NumberAt(b, at, 4, e) && h.stype == NumberAt(b, at + 4, 4, e)
    && h.flags == NumberAt(b, at + 8, 4, e) && h.addr == NumberAt(b, at + 12, 4, e)
    && h.offset == NumberAt(b, at + 16, 4, e) && h.size == NumberAt(b, at + 20, 4, e)
    && h.link == NumberAt(b, at + 24, 4, e) && h.info == NumberAt(b, at + 28, 4, e)
    && h.addralign == NumberAt(b, at + 32, 4, e) && h.entsize == NumberAt(b, at + 36, 4, e)
  }

  lemma {:induction false} WordsOff(ws: seq<nat>, k: nat)
    requires k <= |ws| && forall i :: 0 <= i < |ws| ==> ws[i] == 4
    ensures Off(ws, k) == 4 * k
  {
    if k > 0 {
      WordsOff(ws, k - 1);
    }
  }

  /** Field `k` of a structure of words that is at `at` in `b`. */
  lemma WordInside(b: seq<byte>, at: nat, end: nat, ws: seq<nat>, k: nat, off: nat, place: nat, encoding: nat)
    requires at <= end <= |b| && Size(ws) == end - at && k < |ws| && forall i :: 0 <= i < |ws| ==> ws[i] == 4
    requires off == 4 * k && place == at + off
    ensures LoadAll(b[at..end], ws, encoding)[k] == NumberAt(b, place, 4, encoding) < WORD
  {
    WordsOff(ws, k);
    FieldNumber(b[at..end], ws, k, off, encoding);
    NumberInside(b, at, end, off, 4, place, encoding);
    Ranges();
  }

  lemma PhdrFormat(b: seq<byte>, at: nat, encoding: nat)
    requires at + 32 <= |b|
    ensures PhdrIn(PhdrAt(b, at, encoding), b, at, encoding)
  {
    HeaderSizes();
    var ws := ElfTypes.Fields(TPhdr);
    WordInside(b, at, at + 32, ws, 0, 0, at, encoding);
    WordInside(b, at, at + 32, ws, 1, 4, at + 4, encoding);
    WordInside(b, at, at + 32, ws, 2, 8, at + 8, encoding);
    WordInside(b, at, at + 32, ws, 3, 12, at + 12, encoding);
    WordInside(b, at, at + 32, ws, 4, 16, at + 16, encoding);
    WordInside(b, at, at + 32, ws, 5, 20, at + 20, encoding);
    WordInside(b, at, at + 32, ws, 6, 24, at + 24, encoding);
    WordInside(b, at, at + 32, ws, 7, 28, at + 28, encoding);
  }

  lemma ShdrFormat(b: seq<byte>, at: nat, encoding: nat)
    requires at + 40 <= |b|
    ensures ShdrIn(ShdrAt(b, at, encoding), b, at, encoding)
  {
    HeaderSizes();
    var ws := ElfTypes.Fields(TShdr);
    WordInside(b, at, at + 40, ws, 0, 0, at, encoding);
    WordInside(b, at, at + 40, ws, 1, 4, at + 4, encoding);
    WordInside(b, at, at + 40, ws, 2, 8, at + 8, encoding);
    WordInside(b, at, at + 40, ws, 3, 12, at + 12, encoding);
    WordInside(b, at, at + 40, ws, 4, 16, at + 16, encoding);
    WordInside(b, at, at + 40, ws, 5, 20, at + 20, encoding);
    WordInside(b, at, at + 40, ws, 6, 24, at + 24, encoding);
    WordInside(b, at, at + 40, ws, 7, 28, at + 28, encoding);
    WordInside(b, at, at + 40, ws, 8, 32, at + 32, encoding);
    WordInside(b, at, at + 40, ws, 9, 36, at + 36, encoding);
  }

  // ----- Whole files -----

  ghost predicate ShdrsIn(shdrs: seq<Shdr>, image: seq<byte>, h: Ehdr, e: nat) {
    && (shdrs != [] <==> h.shoff != 0) && (shdrs != [] ==> h.shentsize == 40)
    && forall i :: 0 <= i < |shdrs| ==> ShdrIn(shdrs[i], image, h.shoff + 40 * i, e)
  }

  ghost predicate PhdrsIn(phdrs: seq<Phdr>, image: seq<byte>, h: Ehdr, e: nat) {
    && (phdrs != [] ==> h.phoff != 0 && h.phentsize == 32)
    && forall i :: 0 <= i < |phdrs| ==> PhdrIn(phdrs[i], image, h.phoff + 32 * i, e)
  }

  /** A file that can be read has its magic bytes, its class, its byte order and its version in its first bytes, its
      file header behind them, and its other headers one behind the other from the offsets that this one gives. */
  lemma FileFormat(image: seq<byte>, hs: Headers, e: nat)
    requires CookFile(image) == Cooked(hs) && e == hs.ehdr.ident[5]
    ensures |image| >= 52 && image[..4] == [0x7f, 0x45, 0x4c, 0x46] && image[4] == 1 && image[6] == 1
    ensures e == image[5] && (e == 1 || e == 2) && EhdrIn(hs.ehdr, image, e)
    ensures ShdrsIn(hs.shdrs, image, hs.ehdr, e) && PhdrsIn(hs.phdrs, image, hs.ehdr, e)
  {
    CookedParts(image, hs);
    EhdrFormat(image[..52], e);
    EhdrOfImage(image, hs.ehdr, image[..52], e);
    ShdrsFormat(image, hs.ehdr, hs.shdrs, e);
    PhdrsFormat(image, hs.ehdr, hs.shdrs, hs.phdrs, e);
  }

  lemma CookedParts(image: seq<byte>, hs: Headers)
    requires CookFile(image) == Cooked(hs)
    ensures |image| >= 52 && image[..4] == [0x7f, 0x45, 0x4c, 0x46] && image[4] == 1 && image[6] == 1
    ensures (image[5] == 1 || image[5] == 2) && hs.ehdr == LoadEhdr(image[..52], image[5])
    ensures hs.ehdr.ident[5] == image[5]
    ensures Shdrs(image, hs.ehdr, image[5]) == Cooked(hs.shdrs)
    ensures Phdrs(image, hs.ehdr, hs.shdrs, image[5]) == Cooked(hs.phdrs)
  {
    IdentBytes(image[..52], image[5], 5);
  }

  lemma EhdrOfImage(image: seq<byte>, h: Ehdr, b: seq<byte>, e: nat)
    requires |image| >= 52 && b == image[..52] && EhdrIn(h, b, e)
    ensures EhdrIn(h, image, e) && h.ident[5] == image[5]
  {
    assert b[..16] == image[..16];
    assert h.ident[5] == image[..16][5];
    forall off: nat, width: nat | off + width <= 52
      ensures NumberAt(b, off, width, e) == NumberAt(image, off, width, e)
    {
      assert b[off..off + width] == image[off..off + width];
    }
  }

  lemma ShdrsFormat(image: seq<byte>, h: Ehdr, shdrs: seq<Shdr>, e: nat)
    requires Shdrs(image, h, e) == Cooked(shdrs)
    ensures ShdrsIn(shdrs, image, h, e)
  {
    forall i | 0 <= i < |shdrs|
      ensures ShdrIn(shdrs[i], image, h.shoff + 40 * i, e)
    {
      assert ShdrBytes(i) == 40 * i && shdrs[i] == ShdrAt(image, h.shoff + ShdrBytes(i), e);
      ShdrFormat(image, h.shoff + 40 * i, e);
    }
  }

  lemma PhdrsFormat(image: seq<byte>, h: Ehdr, shdrs: seq<Shdr>, phdrs: seq<Phdr>, e: nat)
    requires Phdrs(image, h, shdrs, e) == Cooked(phdrs)
    ensures PhdrsIn(phdrs, image, h, e)
  {
    forall i | 0 <= i < |phdrs|
      ensures PhdrIn(phdrs[i], image, h.phoff + 32 * i, e)
    {
      assert PhdrBytes(i) == 32 * i && phdrs[i] == PhdrAt(image, h.phoff + PhdrBytes(i), e);
      PhdrFormat(image, h.phoff + 32 * i, e);
    }
  }

  // ----- Numbers -----

  function Two(a: nat, b: nat): nat { a + 256 * b }

  function Four(a: nat, b: nat, c: nat, d: nat): nat { a + 256 * (b + 256 * (c + 256 * d)) }

  /** Numbers of two and four bytes, lowest byte first where the file says 1 and last where it says 2. */
  lemma ByteOrder(b: seq<byte>, off: nat)
    requires off + 4 <= |b|
    ensures NumberAt(b, off, 2, 1) == Two(b[off], b[off + 1]) && NumberAt(b, off, 2, 2) == Two(b[off + 1], b[off])
    ensures NumberAt(b, off, 4, 1) == Four(b[off], b[off + 1], b[off + 2], b[off + 3])
    ensures NumberAt(b, off, 4, 2) == Four(b[off + 3], b[off + 2], b[off + 1], b[off])
  {
    assert b[off..off + 2] == [b[off], b[off + 1]];
    assert b[off..off + 4] == [b[off], b[off + 1], b[off + 2], b[off + 3]];
    LoadTwo(b[off], b[off + 1]);
    LoadFour(b[off], b[off + 1], b[off + 2], b[off + 3]);
  }

  // ----- Contents of sections -----

  /** Sections of type `stype` are arrays of structures of `size` bytes, and these have a number of `width` bytes at
      `off`. */
  predicate HasNumber(stype: Word, size: nat, off: nat, width: nat) {
    || (stype == 9 && size == 8 && width == 4 && off in {0, 4})                     // REL
    || (stype == 4 && size == 12 && width == 4 && off in {0, 4, 8})                 // RELA
    || (stype == 6 && size == 8 && width == 4 && off in {0, 4})                     // DYNAMIC
    || (stype in {5, 18} && size == 4 && width == 4 && off == 0)                    // HASH, SYMTAB_SHNDX
    || (stype in {2, 11} && size == 16                                              // SYMTAB, DYNSYM
        && ((width == 4 && off in {0, 4, 8}) || (width == 1 && off in {12, 13}) || (width == 2 && off == 14)))
    || (stype == 0x6fff_ffff && size == 2 && width == 2 && off == 0)                // SUNW_versym
  }

  lemma FirstOffs(ws: seq<nat>)
    ensures |ws| >= 1 ==> Off(ws, 1) == ws[0]
    ensures |ws| >= 2 ==> Off(ws, 2) == ws[0] + ws[1]
    ensures |ws| >= 3 ==> Off(ws, 3) == ws[0] + ws[1] + ws[2]
    ensures |ws| >= 4 ==> Off(ws, 4) == ws[0] + ws[1] + ws[2] + ws[3]
    ensures |ws| >= 5 ==> Off(ws, 5) == ws[0] + ws[1] + ws[2] + ws[3] + ws[4]
  {
    if |ws| >= 1 {
      assert Off(ws, 1) == ws[0];
    }
    if |ws| >= 3 {
      assert Off(ws, 3) == ws[0] + ws[1] + ws[2];
    }
  }

  lemma NumberIsField(stype: Word, size: nat, off: nat, width: nat) returns (k: nat)
    requires HasNumber(stype, size, off, width)
    ensures ElfWriter.KindOf(SectionType(stype)).None?
    ensures var ws := ElfTypes.Fields(SectionType(stype));
            Size(ws) == size && k < |ws| && ws[k] == width && Off(ws, k) == off && off + width <= size
  {
    var ws := ElfTypes.Fields(SectionType(stype));
    SmallSizes(ws);
    FirstOffs(ws);
    k := if off == 0 then 0 else if off == 4 then 1 else if off == 8 then 2 else if off == 12 then 3
         else if off == 13 then 4 else 5;
  }

  lemma SmallSizes(ws: seq<nat>)
    ensures ws == [4] ==> Size(ws) == 4
    ensures ws == [2] ==> Size(ws) == 2
    ensures ws == [4, 4] ==> Size(ws) == 8
    ensures ws == [4, 4, 4] ==> Size(ws) == 12
    ensures ws == [4, 4, 4, 1, 1, 2] ==> Size(ws) == 16
  {
    assert Size([4]) == 4 && Size([2]) == 2 && Size([4, 4]) == 8 && Size([4, 4, 4]) == 12;
    SizeOfSum([4, 4, 4], [1, 1, 2]);
    assert Size([1, 1, 2]) == 4 && [4, 4, 4] + [1, 1, 2] == [4, 4, 4, 1, 1, 2];
  }

  lemma {:induction false} MirrorInElement(ws: seq<nat>, j: nat, n: nat, lo: nat, i: nat, p: nat)
    requires n == Size(ws) > 0 && lo == Times(j, n) && i < n && p == lo + i
    ensures ArrayMirror(ws, p) == lo + Mirror(ws, i)
    decreases j
  {
    if j > 0 {
      MirrorInElement(ws, j - 1, n, lo - n, i, p - n);
    }
  }

  /** `e` is in `b` at `lo`. */
  predicate Contains(b: seq<byte>, lo: nat, e: seq<byte>) {
    lo + |e| <= |b| && forall i :: 0 <= i < |e| ==> b[lo + i] == e[i]
  }

  lemma ContainedSlice(b: seq<byte>, lo: nat, hi: nat, e: seq<byte>)
    requires hi == lo + |e|
    ensures Contains(b, lo, e) <==> hi <= |b| && b[lo..hi] == e
  {
    if hi <= |b| && b[lo..hi] == e {
      assert forall i :: 0 <= i < |e| ==> b[lo..hi][i] == e[i];
    }
  }

  lemma ByteOfElement(b: seq<byte>, ws: seq<nat>, from: nat, to: nat, j: nat, n: nat, lo: nat, r: seq<byte>,
                      e: seq<byte>, f: seq<byte>, i: nat, p: nat)
    requires n == Size(ws) > 0 && r == RecodeArray(b, ws, from, to) && lo == Times(j, n) && lo + n <= |r|
    requires |e| == n && Contains(b, lo, e) && f == Recode(e, ws, from, to) && i < n && p == lo + i
    ensures r[p] == f[i]
  {
    ArrayByte(b, ws, from, to, p, r);
    RecodedByte(e, ws, from, to, i, f);
    MirrorInElement(ws, j, n, lo, i, p);
    assert b[lo + Mirror(ws, i)] == e[Mirror(ws, i)];
  }

  /** Element `j` of a translated array is the translated element `j`. */
  lemma ElementOfArray(b: seq<byte>, ws: seq<nat>, from: nat, to: nat, j: nat, n: nat, lo: nat, r: seq<byte>,
                       e: seq<byte>, f: seq<byte>)
    requires n == Size(ws) > 0 && r == RecodeArray(b, ws, from, to) && lo == Times(j, n) && lo + n <= |r|
    requires |e| == n && Contains(b, lo, e) && f == Recode(e, ws, from, to)
    ensures Contains(r, lo, f)
  {
    forall i | 0 <= i < n
      ensures r[lo + i] == f[i]
    {
      ByteOfElement(b, ws, from, to, j, n, lo, r, e, f, i, lo + i);
    }
  }

  lemma NumberContained(b: seq<byte>, lo: nat, e: seq<byte>, off: nat, width: nat, at: nat, encoding: nat)
    requires Contains(b, lo, e) && off + width <= |e| && at == lo + off
    ensures NumberAt(b, at, width, encoding) == NumberAt(e, off, width, encoding)
  {
    ContainedSlice(b, lo, lo + |e|, e);
    NumberInside(b, lo, lo + |e|, off, width, at, encoding);
  }

  /** A number in a translated structure is the number that was there, read in the byte order that there was. */
  lemma NumberOfElement(e: seq<byte>, ws: seq<nat>, k: nat, off: nat, width: nat, from: nat, to: nat, f: seq<byte>)
    requires |e| == Size(ws) && f == Recode(e, ws, from, to) && k < |ws| && off == Off(ws, k) && width == ws[k]
    ensures off + width <= |e| && NumberAt(f, off, width, to) == NumberAt(e, off, width, from)
  {
    RecodedBack(e, ws, from, to);
    FieldNumber(e, ws, k, off, from);
    FieldNumber(f, ws, k, off, to);
  }

  /** The same in an array. */
  lemma NumberOfArray(b: seq<byte>, ws: seq<nat>, k: nat, off: nat, width: nat, from: nat, to: nat, j: nat, n: nat,
                      lo: nat, r: seq<byte>, at: nat, e: seq<byte>)
    requires n == Size(ws) > 0 && r == RecodeArray(b, ws, from, to) && lo == Times(j, n) && lo + n <= |r|
    requires |e| == n && Contains(b, lo, e)
    requires k < |ws| && off == Off(ws, k) && width == ws[k] && at == lo + off
    ensures NumberAt(r, at, width, to) == NumberAt(b, at, width, from)
  {
    var f := Recode(e, ws, from, to);
    NumberOfElement(e, ws, k, off, width, from, to, f);
    NumberContained(b, lo, e, off, width, at, from);
    ElementOfArray(b, ws, from, to, j, n, lo, r, e, f);
    NumberContained(r, lo, f, off, width, at, to);
  }

  /** And in an array that was read from a place in the file. */
  lemma NumberInFile(image: seq<byte>, start: nat, end: nat, b: seq<byte>, ws: seq<nat>, k: nat, off: nat, width: nat,
                     from: nat, to: nat, j: nat, n: nat, r: seq<byte>, at: nat, place: nat)
    requires start <= end <= |image| && b == image[start..end]
    requires n == Size(ws) > 0 && r == RecodeArray(b, ws, from, to) && Times(j + 1, n) <= |r| <= |b|
    requires k < |ws| && off == Off(ws, k) && width == ws[k] && off + width <= n
    requires at == Times(j, n) + off && place == start + at
    ensures NumberAt(r, at, width, to) == NumberAt(image, place, width, from)
  {
    var lo, hi := Times(j, n), Times(j + 1, n);
    ContainedSlice(b, lo, hi, b[lo..hi]);
    NumberOfArray(b, ws, k, off, width, from, to, j, n, lo, r, at, b[lo..hi]);
    NumberInside(image, start, end, at, width, place, from);
  }

  lemma BytesRecoded(image: seq<byte>, h: Shdr, index: nat, encoding: nat, native: nat, t: ElfType, bytes: seq<byte>,
                     end: nat, ws: seq<nat>, b: seq<byte>)
    requires GetData(image, h, index, encoding, native) == Cooked(Contents(t, bytes)) && end == h.offset + h.size
    requires ElfWriter.KindOf(SectionType(h.stype)).None? && ws == ElfTypes.Fields(SectionType(h.stype)) && Size(ws) > 0
    requires end <= |image| ==> b == image[h.offset..end]
    ensures end <= |image| && bytes == RecodeArray(b, ws, encoding, native)
    ensures |bytes| == Whole(h.size, Size(ws)) <= h.size < |bytes| + Size(ws)
  {
    GotContents(image, h, index, encoding, native, Cooked(Contents(t, bytes)), end);
    WholeAlmost(|b|, Size(ws));
  }

  lemma WholeAlmost(len: nat, size: nat)
    requires size > 0
    ensures Whole(len, size) <= len < Whole(len, size) + size
  {
  }

  lemma FieldOfSection(image: seq<byte>, h: Shdr, index: nat, encoding: nat, native: nat, t: ElfType, bytes: seq<byte>,
                       j: nat, size: nat, off: nat, width: nat, at: nat, ws: seq<nat>, k: nat)
    requires GetData(image, h, index, encoding, native) == Cooked(Contents(t, bytes))
    requires ElfWriter.KindOf(SectionType(h.stype)).None? && ws == ElfTypes.Fields(SectionType(h.stype))
    requires Size(ws) == size > 0 && k < |ws| && ws[k] == width && Off(ws, k) == off && off + width <= size
    requires at == Times(j, size) + off
    ensures |bytes| <= h.size < |bytes| + size && h.offset + h.size <= |image|
    ensures Times(j + 1, size) <= |bytes| ==>
              NumberAt(bytes, at, width, native) == NumberAt(image, h.offset + at, width, encoding)
  {
    var end := h.offset + h.size;
    var b := if end <= |image| then image[h.offset..end] else [];
    BytesRecoded(image, h, index, encoding, native, t, bytes, end, ws, b);
    if Times(j + 1, size) <= |bytes| {
      NumberInFile(image, h.offset, end, b, ws, k, off, width, encoding, native, j, size, bytes, at, h.offset + at);
    }
  }

  /** What is read of a section of structures: all of them that are whole, and every number of entry `j` with the value
      that it has at its place in the file. */
  lemma SectionNumber(image: seq<byte>, h: Shdr, index: nat, encoding: nat, native: nat, t: ElfType, bytes: seq<byte>,
                      j: nat, size: nat, off: nat, width: nat, at: nat)
    requires GetData(image, h, index, encoding, native) == Cooked(Contents(t, bytes))
    requires HasNumber(h.stype, size, off, width) && at == Times(j, size) + off
    ensures |bytes| <= h.size < |bytes| + size && h.offset + h.size <= |image|
    ensures Times(j + 1, size) <= |bytes| ==>
              NumberAt(bytes, at, width, native) == NumberAt(image, h.offset + at, width, encoding)
  {
    var k := NumberIsField(h.stype, size, off, width);
    var ws := ElfTypes.Fields(SectionType(h.stype));
    FieldOfSection(image, h, index, encoding, native, t, bytes, j, size, off, width, at, ws, k);
  }

  // ----- Version records -----

  lemma RecordNumber(src: seq<byte>, v: Visit, k: nat, off: nat, width: nat, at: nat, e: nat)
    requires Inside(v, |src|) && k < |v.widths| && Off(v.widths, k) == off && v.widths[k] == width && at == v.at + off
    ensures Values(src, e, v)[k] == NumberAt(src, at, width, e)
  {
    FieldNumber(Bytes(src, v), v.widths, k, off, e);
    NumberInside(src, v.at, v.at + Size(v.widths), off, width, at, e);
  }

  lemma VersionSizes()
    ensures Size([2, 2, 2, 2, 4, 4, 4]) == 20 && Size([4, 4]) == 8
    ensures Size([2, 2, 4, 4, 4]) == 16 && Size([4, 2, 2, 4, 4]) == 16
  {
    SizeOfSum([2, 2, 2, 2], [4, 4, 4]);
    assert [2, 2, 2, 2] + [4, 4, 4] == [2, 2, 2, 2, 4, 4, 4] && Size([2, 2, 2, 2]) == 8 && Size([4, 4, 4]) == 12;
    SizeOfSum([2, 2], [4, 4, 4]);
    assert [2, 2] + [4, 4, 4] == [2, 2, 4, 4, 4] && Size([2, 2]) == 4;
    SizeOfSum([4, 2, 2], [4, 4]);
    assert [4, 2, 2] + [4, 4] == [4, 2, 2, 4, 4] && Size([4, 2, 2]) == 8 && Size([4, 4]) == 8;
  }

  /** Which sections hold which records. */
  lemma VersionSections(stype: Word)
    ensures ElfWriter.KindOf(SectionType(stype)) == Some(VERDEF) <==> stype == 0x6fff_fffd
    ensures ElfWriter.KindOf(SectionType(stype)) == Some(VERNEED) <==> stype == 0x6fff_fffe
  {
    assert VERDEF.main != VERNEED.main;
  }

  /** The walk after a main record `v` whose version, count, first auxiliary record and successor are given. */
  ghost function WalkOn(kind: RecordKind, src: seq<byte>, e: nat, v: Visit, version: nat, cnt: nat, aux: nat, next: nat)
      : Walked
    requires Sound(kind)
  {
    if version != 1 then Bad(BadVersion)
    else if cnt == 0 || aux == 0 then Bad(BadFormat)
    else
      var w := WalkAux(kind, src, e, v.at + aux, cnt);
      if w.Bad? || next == 0 then Prepend([v], w)
      else Prepend([v] + w.visits, Walk(kind, src, e, v.at + next))
  }

  /** Definitions: 20 bytes, the version at 0, the count at 6, the first auxiliary record at 12, the next one at 16. */
  lemma VerdefFormat(src: seq<byte>, e: nat, off: nat)
    ensures Walk(VERDEF, src, e, off) ==
            if off + 20 > |src| then Walked([])
            else if off % 4 != 0 then Bad(BadFormat)
            else WalkOn(VERDEF, src, e, Visit(off, [2, 2, 2, 2, 4, 4, 4]), NumberAt(src, off, 2, e),
                        NumberAt(src, off + 6, 2, e), NumberAt(src, off + 12, 4, e), NumberAt(src, off + 16, 4, e))
  {
    VersionSizes();
    var v := Visit(off, [2, 2, 2, 2, 4, 4, 4]);
    if Inside(v, |src|) {
      FirstOffs(v.widths);
      assert Off(v.widths, 6) == 16;
      RecordNumber(src, v, 0, 0, 2, off, e);
      RecordNumber(src, v, 3, 6, 2, off + 6, e);
      RecordNumber(src, v, 5, 12, 4, off + 12, e);
      RecordNumber(src, v, 6, 16, 4, off + 16, e);
      MainStepOf(VERDEF, src, e, v, Values(src, e, v));
    }
  }

  /** Needed versions: 16 bytes, the version at 0, the count at 2, the first auxiliary record at 8, the next at 12. */
  lemma VerneedFormat(src: seq<byte>, e: nat, off: nat)
    ensures Walk(VERNEED, src, e, off) ==
            if off + 16 > |src| then Walked([])
            else if off % 4 != 0 then Bad(BadFormat)
            else WalkOn(VERNEED, src, e, Visit(off, [2, 2, 4, 4, 4]), NumberAt(src, off, 2, e),
                        NumberAt(src, off + 2, 2, e), NumberAt(src, off + 8, 4, e), NumberAt(src, off + 12, 4, e))
  {
    VersionSizes();
    var v := Visit(off, [2, 2, 4, 4, 4]);
    if Inside(v, |src|) {
      FirstOffs(v.widths);
      RecordNumber(src, v, 0, 0, 2, off, e);
      RecordNumber(src, v, 1, 2, 2, off + 2, e);
      RecordNumber(src, v, 3, 8, 4, off + 8, e);
      RecordNumber(src, v, 4, 12, 4, off + 12, e);
      MainStepOf(VERNEED, src, e, v, Values(src, e, v));
    }
  }

  lemma MainStepOf(kind: RecordKind, src: seq<byte>, e: nat, v: Visit, vs: seq<nat>)
    requires Sound(kind) && v.widths == kind.main && Inside(v, |src|) && vs == Values(src, e, v)
    ensures Walk(kind, src, e, v.at) ==
            if v.at % 4 != 0 then Bad(BadFormat)
            else WalkOn(kind, src, e, v, vs[0], vs[kind.cnt], vs[kind.aux], vs[kind.next])
  {
  }

  /** Auxiliary records of definitions have 8 bytes and the next one at 4, those of needed versions 16 bytes and the
      next one at 12. */
  lemma AuxiliaryFormat(src: seq<byte>, e: nat, off: nat, left: nat)
    ensures WalkAux(VERDEF, src, e, off, left) ==
            if left == 0 || off + 8 > |src| then Walked([])
            else if off % 4 != 0 then Bad(BadFormat)
            else if NumberAt(src, off + 4, 4, e) == 0 then Walked([Visit(off, [4, 4])])
            else Prepend([Visit(off, [4, 4])], WalkAux(VERDEF, src, e, off + NumberAt(src, off + 4, 4, e), left - 1))
    ensures WalkAux(VERNEED, src, e, off, left) ==
            if left == 0 || off + 16 > |src| then Walked([])
            else if off % 4 != 0 then Bad(BadFormat)
            else if NumberAt(src, off + 12, 4, e) == 0 then Walked([Visit(off, [4, 2, 2, 4, 4])])
            else Prepend([Visit(off, [4, 2, 2, 4, 4])],
                         WalkAux(VERNEED, src, e, off + NumberAt(src, off + 12, 4, e), left - 1))
  {
    VersionSizes();
    var v, w := Visit(off, [4, 4]), Visit(off, [4, 2, 2, 4, 4]);
    FirstOffs(v.widths);
    FirstOffs(w.widths);
    if Inside(v, |src|) {
      RecordNumber(src, v, 1, 4, 4, off + 4, e);
    }
    if Inside(w, |src|) {
      RecordNumber(src, w, 4, 12, 4, off + 12, e);
    }
  }

  // ----- Sizes that the layout fills in -----

  /** The file header gets its magic bytes, its class, its version and, if it has none, the byte order of the host, and
      the sizes of the structures. What is not about the layout stays. */
  lemma SizesFilledIn(f: ElfLayout.File, g: ElfLayout.File, len: nat)
    requires (|f.phdrs| >= PN_XNUM ==> f.sections != []) && ElfLayout.Layout(f) == ElfLayout.Laid((g, len))
    ensures g.ehdr.ehsize == 52 && g.ehdr.version == 1
    ensures g.ehdr.phentsize == (if f.phdrs == [] then 0 else 32)
    ensures g.ehdr.shentsize == (if f.sections == [] then 0 else 40)
    ensures g.ehdr.ident[..4] == [0x7f, 0x45, 0x4c, 0x46] && g.ehdr.ident[4] == 1 && g.ehdr.ident[6] == 1
    ensures g.ehdr.ident[5] == (if f.ehdr.ident[5] == 0 then f.native else f.ehdr.ident[5])
    ensures g.ehdr.ident[7..] == f.ehdr.ident[7..] && g.ehdr.etype == f.ehdr.etype && g.ehdr.machine == f.ehdr.machine
    ensures g.ehdr.entry == f.ehdr.entry && g.ehdr.flags == f.ehdr.flags && g.ehdr.shstrndx == f.ehdr.shstrndx
  {
  }

  /** The size of one entry in sections of this type, or zero. */
  function EntrySize(stype: Word): nat {
    if stype in {2, 11} then 16              // SYMTAB, DYNSYM
    else if stype in {6, 9} then 8           // DYNAMIC, REL
    else if stype == 4 then 12               // RELA
    else if stype in {5, 18} then 4          // HASH, SYMTAB_SHNDX
    else if stype == 0x6fff_ffff then 2      // SUNW_versym
    else 0
  }

  /** A default layout gives a section without an entry size that of its type, and changes nothing else in its header
      but its offset, its size and its alignment. */
  lemma SectionFilledIn(f: ElfLayout.File, g: ElfLayout.File, i: nat, h: Shdr)
    requires ElfLayoutLaws.Defaulted(f) && g == ElfLayout.Layout(f).value.0
    requires i < |f.sections| && ElfLayoutLaws.Live(f.sections[i], i) && h == f.sections[i].shdr
    ensures |g.sections| == |f.sections|
    ensures var now := g.sections[i].shdr;
            && now == h.(offset := now.offset, size := now.size, addralign := now.addralign, entsize := now.entsize)
            && now.entsize == if h.entsize == 0 then EntrySize(h.stype) else h.entsize
  {
    ElfLayoutLaws.LiveSectionLaidOut(f, i);
  }
}
