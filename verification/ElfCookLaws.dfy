/**
 The reader inverts the writer.
 */
module ElfCookLaws {
  import opened Basics
  import opened ElfTypes
  import opened ElfCoding
  import opened ElfPatches
  import opened ElfVersions
  import opened ElfLayout
  import opened ElfLayoutLaws
  import opened ElfLayoutAgain
  import opened ElfWriter
  import opened ElfWriterLaws
  import opened ElfReader
  import opened ElfRoundTrip

  // ----- Counts -----

  /** The identification and the counts as a layout leaves them. */
  ghost predicate Labelled(f: File) {
    var h, n, m := f.ehdr, |f.phdrs|, |f.sections|;
    && h.ident[..4] == [0x7f, 0x45, 0x4c, 0x46]
    && h.ident[EI_CLASS] == ELFCLASS32 && h.ident[EI_VERSION] == EV_CURRENT && ValidEncoding(Enc(f))
    && h.phnum == (if n >= PN_XNUM then PN_XNUM else n)
    && (if n == 0 then h.phoff == 0 else h.phentsize == PHDR_SIZE)
    && (n >= PN_XNUM ==> m > 0 && f.sections[0].shdr.info == n)
    && h.shnum == (if m >= SHN_LORESERVE then 0 else m)
    && (if m == 0 then h.shoff == 0 else h.shentsize == SHDR_SIZE)
    && (m >= SHN_LORESERVE ==> f.sections[0].shdr.size == m)
  }

  function ShdrsOf(ss: seq<Section>): (hs: seq<Shdr>)
    ensures |hs| == |ss|
  {
    seq(|ss|, i requires 0 <= i < |ss| => ss[i].shdr)
  }

  // ----- Headers -----

  lemma {:induction false} NthPhdr(hs: seq<Phdr>, encoding: nat, i: nat, lo: nat, hi: nat)
    requires i < |hs| && lo == PhdrBytes(i) && hi == lo + PHDR_SIZE
    ensures hi <= |StorePhdrs(hs, encoding)| && StorePhdrs(hs, encoding)[lo..hi] == StorePhdr(hs[i], encoding)
    decreases i
  {
    var first, rest := StorePhdr(hs[0], encoding), StorePhdrs(hs[1..], encoding);
    if i > 0 {
      var lo', hi' := lo - PHDR_SIZE, hi - PHDR_SIZE;
      NthPhdr(hs[1..], encoding, i - 1, lo', hi');
      DropShift(first, rest, lo', hi', lo, hi);
    }
  }

  lemma PhdrBack(out: seq<byte>, hs: seq<Phdr>, encoding: nat, from: nat, to: nat, i: nat, at: nat)
    requires from <= to <= |out| && out[from..to] == StorePhdrs(hs, encoding) && i < |hs| && at == from + PhdrBytes(i)
    ensures at + PHDR_SIZE <= to && PhdrAt(out, at, encoding) == hs[i]
  {
    var lo := PhdrBytes(i);
    var hi := lo + PHDR_SIZE;
    NthPhdr(hs, encoding, i, lo, hi);
    SliceOfSlice(out, from, to, lo, hi);
    assert out[at..from + hi] == StorePhdr(hs[i], encoding);
    PhdrLoads(out, at, from + hi, hs[i], encoding);
  }

  lemma PhdrLoads(out: seq<byte>, at: nat, end: nat, h: Phdr, encoding: nat)
    requires end == at + PHDR_SIZE && end <= |out| && out[at..end] == StorePhdr(h, encoding)
    ensures PhdrAt(out, at, encoding) == h
  {
    PhdrRoundTrip(h, encoding);
  }

  lemma NthOfPhdrTable(image: seq<byte>, off: nat, num: nat, encoding: nat, i: nat, at: nat)
    requires i < num && off + PhdrBytes(num) <= |image| && at == off + PhdrBytes(i)
    ensures at + PHDR_SIZE <= |image| && PhdrTable(image, off, num, encoding)[i] == PhdrAt(image, at, encoding)
  {
  }

  lemma ShdrLoads(out: seq<byte>, at: nat, end: nat, h: Shdr, encoding: nat)
    requires end == at + SHDR_SIZE && end <= |out| && out[at..end] == StoreShdr(h, encoding)
    ensures ShdrAt(out, at, encoding) == h
  {
    ShdrRoundTrip(h, encoding);
  }

  lemma ShdrBack(f: File, b: seq<byte>, ps: seq<Piece>, i: nat, at: nat)
    requires Regular(f, |b|) && WriteFile(f) == Pieces(ps) && Fits(ps, |b|) && i < |f.sections|
    requires at == f.ehdr.shoff + ShdrBytes(i)
    ensures at + SHDR_SIZE <= |b| && ShdrAt(PatchAll(b, ps), at, Enc(f)) == f.sections[i].shdr
  {
    var end := at + SHDR_SIZE;
    ShdrWritten(f, b, ps, i, at, end);
    ShdrLoads(PatchAll(b, ps), at, end, f.sections[i].shdr, Enc(f));
  }

  lemma NthShdr(image: seq<byte>, off: nat, num: nat, encoding: nat, i: nat, at: nat)
    requires i < num && off + ShdrBytes(num) <= |image| && at == off + ShdrBytes(i)
    ensures at + SHDR_SIZE <= |image| && ShdrTable(image, off, num, encoding)[i] == ShdrAt(image, at, encoding)
  {
  }

  lemma ShdrTableBack(f: File, b: seq<byte>, ps: seq<Piece>)
    requires Regular(f, |b|) && WriteFile(f) == Pieces(ps) && Fits(ps, |b|) && |f.sections| > 0
    ensures f.ehdr.shoff + ShdrBytes(|f.sections|) == |b|
    ensures ShdrTable(PatchAll(b, ps), f.ehdr.shoff, |f.sections|, Enc(f)) == ShdrsOf(f.sections)
  {
    var out, hs := PatchAll(b, ps), ShdrsOf(f.sections);
    var table := ShdrTable(out, f.ehdr.shoff, |f.sections|, Enc(f));
    forall i | 0 <= i < |hs|
      ensures table[i] == hs[i]
    {
      var at := f.ehdr.shoff + ShdrBytes(i);
      ShdrBack(f, b, ps, i, at);
      NthShdr(out, f.ehdr.shoff, |f.sections|, Enc(f), i, at);
    }
  }

  lemma ShdrsCooked(image: seq<byte>, h: Ehdr, encoding: nat, m: nat)
    requires h.shoff > 0 && h.shentsize == SHDR_SIZE && m > 0 && h.shoff + ShdrBytes(m) <= |image|
    requires h.shnum == (if m >= SHN_LORESERVE then 0 else m)
    requires m >= SHN_LORESERVE ==> ShdrAt(image, h.shoff, encoding).size == m
    ensures Shdrs(image, h, encoding) == Cooked(ShdrTable(image, h.shoff, m, encoding))
  {
    assert SectionCount(image, h, encoding) == Cooked(m);
  }

  lemma ShdrZeroBack(f: File, b: seq<byte>, ps: seq<Piece>)
    requires Regular(f, |b|) && WriteFile(f) == Pieces(ps) && Fits(ps, |b|) && |f.sections| > 0
    ensures f.ehdr.shoff > 0 && f.ehdr.shoff + SHDR_SIZE <= |b|
    ensures ShdrAt(PatchAll(b, ps), f.ehdr.shoff, Enc(f)) == f.sections[0].shdr
  {
    ShdrBack(f, b, ps, 0, f.ehdr.shoff);
  }

  lemma ShdrsBack(f: File, b: seq<byte>, ps: seq<Piece>)
    requires Regular(f, |b|) && WriteFile(f) == Pieces(ps) && Fits(ps, |b|) && Labelled(f)
    ensures Shdrs(PatchAll(b, ps), f.ehdr, Enc(f)) == Cooked(ShdrsOf(f.sections))
  {
    if |f.sections| > 0 {
      ShdrTableBack(f, b, ps);
      ShdrZeroBack(f, b, ps);
      ShdrsCooked(PatchAll(b, ps), f.ehdr, Enc(f), |f.sections|);
    } else {
      assert ShdrsOf(f.sections) == [];
    }
  }

  lemma PhdrsCooked(image: seq<byte>, h: Ehdr, shdrs: seq<Shdr>, encoding: nat, n: nat)
    requires h.phoff > 0 && h.phentsize == PHDR_SIZE && n > 0 && h.phoff + PhdrBytes(n) <= |image|
    requires h.phnum == if n >= PN_XNUM then PN_XNUM else n
    requires n >= PN_XNUM ==> shdrs != [] && shdrs[0].info == n
    ensures Phdrs(image, h, shdrs, encoding) == Cooked(PhdrTable(image, h.phoff, n, encoding))
  {
    assert SegmentCount(h, shdrs) == Cooked(n);
  }

  lemma PhdrTableBack(out: seq<byte>, hs: seq<Phdr>, encoding: nat, from: nat, to: nat)
    requires from <= to <= |out| && out[from..to] == StorePhdrs(hs, encoding)
    ensures from + PhdrBytes(|hs|) == to && PhdrTable(out, from, |hs|, encoding) == hs
  {
    var table := PhdrTable(out, from, |hs|, encoding);
    forall i | 0 <= i < |hs|
      ensures table[i] == hs[i]
    {
      var at := from + PhdrBytes(i);
      PhdrBack(out, hs, encoding, from, to, i, at);
      NthOfPhdrTable(out, from, |hs|, encoding, i, at);
    }
  }

  lemma PhdrsBack(f: File, b: seq<byte>, ps: seq<Piece>)
    requires Regular(f, |b|) && WriteFile(f) == Pieces(ps) && Fits(ps, |b|) && Labelled(f)
    ensures Phdrs(PatchAll(b, ps), f.ehdr, ShdrsOf(f.sections), Enc(f)) == Cooked(f.phdrs)
  {
    if |f.phdrs| > 0 {
      PhdrsWritten(f, b, ps);
      PhdrTableBack(PatchAll(b, ps), f.phdrs, Enc(f), EHDR_SIZE, Start(f));
      PhdrsCooked(PatchAll(b, ps), f.ehdr, ShdrsOf(f.sections), Enc(f), |f.phdrs|);
    } else {
      assert f.phdrs == [];
    }
  }

  lemma IdentBack(f: File, b: seq<byte>, ps: seq<Piece>)
    requires Regular(f, |b|) && WriteFile(f) == Pieces(ps) && Fits(ps, |b|)
    ensures |b| >= EHDR_SIZE && PatchAll(b, ps)[..EI_NIDENT] == f.ehdr.ident
    ensures LoadEhdr(PatchAll(b, ps)[..EHDR_SIZE], Enc(f)) == f.ehdr
  {
    var out := PatchAll(b, ps);
    EhdrWritten(f, b, ps);
    EhdrRoundTrip(f.ehdr, Enc(f));
    IdentStored(f.ehdr, Enc(f));
    FirstOfFirst(out, EI_NIDENT, EHDR_SIZE);
  }

  lemma FirstOfFirst(b: seq<byte>, n: nat, m: nat)
    requires n <= m <= |b|
    ensures b[..n] == b[..m][..n]
  {
  }

  /** Reading a written file gives its header, section headers and program headers. */
  lemma HeadersBack(f: File, b: seq<byte>, ps: seq<Piece>)
    requires Regular(f, |b|) && WriteFile(f) == Pieces(ps) && Fits(ps, |b|) && Labelled(f)
    ensures CookFile(PatchAll(b, ps)) == Cooked(Headers(f.ehdr, ShdrsOf(f.sections), f.phdrs))
  {
    var out := PatchAll(b, ps);
    IdentBack(f, b, ps);
    assert forall i :: 0 <= i < EI_NIDENT ==> out[i] == out[..EI_NIDENT][i];
    assert out[..4] == out[..EI_NIDENT][..4];
    ShdrsBack(f, b, ps);
    PhdrsBack(f, b, ps);
  }

  // ----- A file under default layout -----

  ghost predicate BuffersSized(f: File) {
    forall i {:trigger f.sections[i]} :: 0 <= i < |f.sections| ==> AllWellSized(f.sections[i].data)
  }

  lemma MovedSized(ds: seq<Data>, ts: seq<Data>)
    requires AllWellSized(ds) && |ts| == |ds| && forall k :: 0 <= k < |ds| ==> ts[k] == Moved(ds[k], ts[k].off)
    ensures AllWellSized(ts)
  {
  }

  lemma SectionSituated(f: File, i: nat)
    requires Defaulted(f) && i < |f.sections| && BuffersSized(f)
    ensures var g := Layout(f).value.0;
            && |g.sections| == |f.sections| && g.sections[i].shdr.stype == f.sections[i].shdr.stype
            && Situated(g.sections[i], i, Start(f), g.ehdr.shoff)
  {
    DefaultParts(f);
    Sections0Same(f);
    TypesKept(f, i);
    if Live(f.sections[i], i) {
      LiveSectionLaidOut(f, i);
      PlacedInOrder(f.sections[i].shdr.stype, f.sections[i].data, 0);
      MovedSized(f.sections[i].data, Layout(f).value.0.sections[i].data);
    }
  }

  lemma TypesKept(f: File, i: nat)
    requires Defaulted(f) && i < |f.sections|
    ensures var g := Layout(f).value.0;
            |g.sections| == |f.sections| && g.sections[i].shdr.stype == f.sections[i].shdr.stype
  {
    DefaultParts(f);
    LayoutIsFinished(f);
    Sections0Same(f);
    PlacedSections(Sections0(f), 0, AfterPhdrs(f));
  }

  lemma DefaultIsRegular(f: File)
    requires Defaulted(f) && BuffersSized(f)
    ensures Regular(Layout(f).value.0, Layout(f).value.1)
  {
    var g := Layout(f).value.0;
    DefaultParts(f);
    AlignedUp(PlaceSections(Sections0(f), 0, AfterPhdrs(f)).value.1, ADDR_SIZE);
    forall i {:trigger g.sections[i]} | 0 <= i < |g.sections|
      ensures Situated(g.sections[i], i, Start(g), g.ehdr.shoff)
    {
      SectionSituated(f, i);
    }
    forall i | 0 <= i < |g.sections| && Filed(g.sections[i], i)
      ensures LaterBehind(g, i, g.sections[i].shdr.offset + g.sections[i].shdr.size)
    {
      LaterSections(f, i);
    }
  }

  lemma LaterSections(f: File, i: nat)
    requires Defaulted(f) && i < |f.sections| == |Layout(f).value.0.sections| && Filed(Layout(f).value.0.sections[i], i)
    ensures var g := Layout(f).value.0;
            LaterBehind(g, i, g.sections[i].shdr.offset + g.sections[i].shdr.size)
  {
    var g := Layout(f).value.0;
    TypesKept(f, i);
    forall j {:trigger g.sections[j]} | i < j < |g.sections| && Filed(g.sections[j], j)
      ensures g.sections[i].shdr.offset + g.sections[i].shdr.size <= g.sections[j].shdr.offset
    {
      TypesKept(f, j);
      LiveSectionsInOrder(f, i, j);
    }
  }

  lemma StampedLabels(f: File, encoding: byte, shoff: nat)
    ensures var h := Stamped(f, encoding, shoff);
            && h.ident[..4] == [0x7f, 0x45, 0x4c, 0x46] && h.ident[EI_CLASS] == ELFCLASS32
            && h.ident[EI_VERSION] == EV_CURRENT && h.ident[EI_DATA] == encoding
            && h.phnum == (if |f.phdrs| >= PN_XNUM then PN_XNUM else |f.phdrs|)
            && (|f.phdrs| > 0 ==> h.phentsize == PHDR_SIZE)
            && h.shnum == (if |f.sections| >= SHN_LORESERVE then 0 else |f.sections|)
            && (|f.sections| > 0 ==> h.shentsize == SHDR_SIZE)
  {
  }

  lemma FirstSection(f: File)
    requires Defaulted(f) && f.sections != []
    ensures var g := Layout(f).value.0;
            && g.sections != []
            && (|f.phdrs| >= PN_XNUM ==> g.sections[0].shdr.info == |f.phdrs|)
            && (|f.sections| >= SHN_LORESERVE ==> g.sections[0].shdr.size == |f.sections|)
  {
    DefaultParts(f);
    LayoutIsFinished(f);
    FirstPlaced(Sections0(f), AfterPhdrs(f));
  }

  lemma DefaultIsLabelled(f: File)
    requires Defaulted(f)
    ensures Labelled(Layout(f).value.0) && Enc(Layout(f).value.0) == Encoding(f)
  {
    DefaultParts(f);
    LayoutIsFinished(f);
    var off := PlaceSections(Sections0(f), 0, AfterPhdrs(f)).value.1;
    HeadersAtEnd(f, off);
    StampedLabels(f, Encoding(f), HeadersAt(f, off).0);
    if f.sections != [] {
      FirstSection(f);
    }
  }

  // ----- Main results -----

  /** A file laid out by default and written over any buffer is read back with the same header, section
      headers and program headers, whether or not its counts fit the header's fields. */
  lemma WriteThenCook(f: File, b: seq<byte>, ps: seq<Piece>)
    requires Defaulted(f) && BuffersSized(f) && |b| == Layout(f).value.1
    requires WriteFile(Layout(f).value.0) == Pieces(ps)
    ensures Fits(ps, |b|)
    ensures var g := Layout(f).value.0;
            CookFile(PatchAll(b, ps)) == Cooked(Headers(g.ehdr, ShdrsOf(g.sections), f.phdrs))
  {
    var g := Layout(f).value.0;
    DefaultIsRegular(f);
    DefaultIsLabelled(f);
    FileFits(g, |b|, ps);
    HeadersBack(g, b, ps);
    DefaultParts(f);
  }

  /** Every non-empty buffer of every section that is in the file can be read back from its place. */
  lemma WriteThenReadBuffer(f: File, b: seq<byte>, ps: seq<Piece>, i: nat, k: nat, lo: nat, hi: nat)
    requires Defaulted(f) && BuffersSized(f) && |b| == Layout(f).value.1
    requires WriteFile(Layout(f).value.0) == Pieces(ps)
    requires i < |f.sections| && Filed(f.sections[i], i) && k < |f.sections[i].data| && f.sections[i].data[k].size > 0
    requires LiesAt(Layout(f).value.0, i, k, lo, hi)
    ensures Fits(ps, |b|) && lo <= hi <= |b| && f.sections[i].data[k].buf.Some?
    ensures Restores(PatchAll(b, ps)[lo..hi], f.sections[i].data[k], Encoding(f), f.native)
  {
    var g := Layout(f).value.0;
    DefaultIsRegular(f);
    DefaultIsLabelled(f);
    FileFits(g, |b|, ps);
    TypesKept(f, i);
    LiveSectionLaidOut(f, i);
    PlacedInOrder(f.sections[i].shdr.stype, f.sections[i].data, 0);
    assert g.sections[i].data[k] == Moved(f.sections[i].data[k], g.sections[i].data[k].off);
    DataWritten(g, b, ps, i, k, lo, hi);
  }

  lemma AlignZero(a: nat)
    ensures AlignUp(0, a) == 0
  {
    if a > 1 {
      assert (a - 1) % a == a - 1;
    }
  }

  lemma OnlyBuffer(f: File, i: nat)
    requires Defaulted(f) && i < |f.sections| && Filed(f.sections[i], i) && |f.sections[i].data| == 1
    ensures var g := Layout(f).value.0;
            && |g.sections| == |f.sections| && Filed(g.sections[i], i)
            && LiesAt(g, i, 0, g.sections[i].shdr.offset, g.sections[i].shdr.offset + g.sections[i].shdr.size)
            && DataSize(f.sections[i].shdr.stype, f.sections[i].data[0]) == Some(g.sections[i].shdr.size)
  {
    var s := f.sections[i];
    TypesKept(f, i);
    LiveSectionLaidOut(f, i);
    AlignZero(s.data[0].align);
    assert PlaceData(s.shdr.stype, s.data[1..], DataSize(s.shdr.stype, s.data[0]).value).value
           == ([], DataSize(s.shdr.stype, s.data[0]).value);
    assert Layout(f).value.0.sections[i].data == [Moved(s.data[0], 0)];
  }

  lemma GetDataIs(image: seq<byte>, h: Shdr, index: nat, encoding: nat, native: nat, d: Data, end: nat)
    requires index != SHN_UNDEF && OnDisk(h) && h.offset + h.size == end <= |image|
    requires d.buf.Some? && d.dtype == SectionType(h.stype) && KindOf(d.dtype).None?
    requires h.size > 0 ==> Restores(image[h.offset..end], d, encoding, native)
    ensures h.size > 0 ==> h.size <= |d.buf.value|
    ensures GetData(image, h, index, encoding, native)
         == Cooked(if h.size == 0 then NoBytes(d.dtype, 0) else Contents(d.dtype, d.buf.value[..h.size]))
  {
  }

  /** A section made of one buffer of the section's own type is read back as that buffer. */
  lemma WriteThenGetData(f: File, b: seq<byte>, ps: seq<Piece>, i: nat, h: Shdr, d: Data)
    requires Defaulted(f) && BuffersSized(f) && |b| == Layout(f).value.1
    requires WriteFile(Layout(f).value.0) == Pieces(ps)
    requires i < |f.sections| == |Layout(f).value.0.sections| && Filed(f.sections[i], i)
    requires f.sections[i].data == [d] && h == Layout(f).value.0.sections[i].shdr
    requires d.size > 0 && d.dtype == SectionType(h.stype) && KindOf(d.dtype).None?
    ensures Fits(ps, |b|) && d.buf.Some? && h.size <= |d.buf.value|
    ensures GetData(PatchAll(b, ps), h, i, Encoding(f), f.native)
         == Cooked(if h.size == 0 then NoBytes(d.dtype, 0) else Contents(d.dtype, d.buf.value[..h.size]))
  {
    OnlyBuffer(f, i);
    TypesKept(f, i);
    var end: nat := h.offset + h.size;
    assert f.sections[i].data[0] == d;
    WriteThenReadBuffer(f, b, ps, i, 0, h.offset, end);
    GetDataIs(PatchAll(b, ps), h, i, Encoding(f), f.native, d, end);
  }

  // ----- When a write is refused -----

  /** A buffer that can be written: it is there, and its version records are well formed. */
  predicate Storable(stype: Word, d: Data, native: nat) {
    d.size == 0 || (
      && d.buf.Some? && DataSize(stype, d).Some?
      && (KindOf(d.dtype).Some? ==> Walk(KindOf(d.dtype).value, d.buf.value, native, 0).Walked?))
  }

  lemma BuffersStorable(stype: Word, ds: seq<Data>, native: nat, encoding: nat, at: nat)
    ensures Join(BufferWritings(stype, ds, native, encoding, at)).Pieces?
       <==> forall k {:trigger ds[k]} :: 0 <= k < |ds| ==> Storable(stype, ds[k], native)
  {
    var ws := BufferWritings(stype, ds, native, encoding, at);
    JoinAll(ws);
    assert forall k {:trigger ds[k]} :: 0 <= k < |ds| ==> (ws[k].Pieces? <==> Storable(stype, ds[k], native));
  }

  predicate SectionStorable(s: Section, index: nat, native: nat) {
    Filed(s, index) ==> forall k {:trigger s.data[k]} :: 0 <= k < |s.data| ==> Storable(s.shdr.stype, s.data[k], native)
  }

  /** A write succeeds exactly if every buffer of a section that is in the file can be written. */
  lemma WriteSucceeds(f: File)
    ensures WriteFile(f).Pieces? <==> forall i {:trigger f.sections[i]} :: 0 <= i < |f.sections| ==>
            SectionStorable(f.sections[i], i, f.native)
  {
    var ws := Writings(f);
    JoinAll(ws);
    forall i {:trigger f.sections[i]} | 0 <= i < |f.sections|
      ensures ws[i].Pieces? <==> SectionStorable(f.sections[i], i, f.native)
    {
      BuffersStorable(f.sections[i].shdr.stype, f.sections[i].data, f.native, Enc(f), f.sections[i].shdr.offset);
    }
  }
}
