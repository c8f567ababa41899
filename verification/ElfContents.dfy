/**
 The contents of sections, read back from a written file: buffers one after the other with fill bytes between
 them, and version records.
 */
module ElfContents {
  import opened Basics
  import opened ElfTypes
  import opened ElfCoding
  import opened ElfPatches
  import opened ElfVersions
  import opened ElfVersionsXlt
  import opened ElfVersionsOverlap
  import opened ElfLayout
  import opened ElfLayoutLaws
  import opened ElfWriter
  import opened ElfWriterLaws
  import opened ElfReader
  import opened ElfRoundTrip
  import opened ElfCookLaws

  // ----- Buffers of bytes -----

  lemma BytesRestored(r: seq<byte>, d: Data, encoding: nat, native: nat)
    requires d.buf.Some? && Restores(r, d, encoding, native) && d.dtype == TByte && |r| == d.size == |d.buf.value|
    ensures r == d.buf.value
  {
  }

  lemma BufferInFile(f: File, b: seq<byte>, ps: seq<Piece>, section: nat, k: nat, d: Data, lo: nat, hi: nat)
    requires Defaulted(f) && BuffersSized(f) && |b| == Layout(f).value.1 && WriteFile(Layout(f).value.0) == Pieces(ps)
    requires section < |f.sections| && Filed(f.sections[section], section) && k < |f.sections[section].data|
    requires d == f.sections[section].data[k] && d.size > 0 && d.dtype == TByte
    requires LiesAt(Layout(f).value.0, section, k, lo, hi) && hi == lo + d.size
    ensures Fits(ps, |b|) && hi <= |b| && d.buf.Some? && |d.buf.value| == d.size
            && PatchAll(b, ps)[lo..hi] == d.buf.value
  {
    WriteThenReadBuffer(f, b, ps, section, k, lo, hi);
    assert WellSized(d);
    BytesRestored(PatchAll(b, ps)[lo..hi], d, Encoding(f), f.native);
  }

  // ----- Where nothing is written -----

  lemma {:induction false} JoinClear(ws: seq<Writing>, lo: nat, hi: nat)
    requires Join(ws).Pieces?
    requires forall k {:trigger ws[k]} :: 0 <= k < |ws| ==> ws[k].Pieces? ==>
               Clear(ws[k].ps, lo, hi)
    ensures Clear(Join(ws).ps, lo, hi)
  {
    if ws != [] {
      JoinClear(ws[1..], lo, hi);
    }
  }

  /** No buffer has a byte at `at` of its section. */
  predicate Uncovered(stype: Word, ds: seq<Data>, at: nat) {
    forall k {:trigger ds[k]} :: 0 <= k < |ds| && DataSize(stype, ds[k]).Some? ==>
      at < ds[k].off || ds[k].off + DataSize(stype, ds[k]).value <= at
  }

  lemma OwnDataClear(s: Section, i: nat, native: nat, encoding: nat, data: seq<Piece>, at: nat, p: nat, p': nat)
    requires Filed(s, i) && Situated(s, i, 0, s.shdr.offset + s.shdr.size) && Uncovered(s.shdr.stype, s.data, at)
    requires Join(BufferWritings(s.shdr.stype, s.data, native, encoding, s.shdr.offset)) == Pieces(data)
    requires p == s.shdr.offset + at && p' == p + 1
    ensures Clear(data, p, p')
  {
    var ws := BufferWritings(s.shdr.stype, s.data, native, encoding, s.shdr.offset);
    forall k {:trigger ws[k]} | 0 <= k < |ws| && ws[k].Pieces?
      ensures Clear(ws[k].ps, p, p')
    {
      InOrderAt(s.shdr.stype, s.data, 0, s.shdr.size, k);
      DataWithin(s.shdr.stype, s.data[k], native, encoding, s.shdr.offset);
    }
    JoinClear(ws, p, p');
  }

  /** Section `j` writes nothing at place `p` of another section `i`. */
  lemma OtherSectionClear(f: File, end: nat, i: nat, j: nat, p: nat, p': nat, mine: seq<Piece>)
    requires Regular(f, end) && i < |f.sections| && j < |f.sections| && i != j && Filed(f.sections[i], i)
    requires f.sections[i].shdr.offset <= p && p' == p + 1 && p < f.sections[i].shdr.offset + f.sections[i].shdr.size
    requires WriteSection(f.sections[j], j, f.native, Enc(f), f.ehdr.shoff) == Pieces(mine)
    ensures Clear(mine, p, p')
  {
    var s, h := f.sections[j], f.sections[i].shdr;
    assert Situated(f.sections[i], i, Start(f), f.ehdr.shoff) && Situated(s, j, Start(f), f.ehdr.shoff);
    var header := Piece(f.ehdr.shoff + ShdrBytes(j), StoreShdr(s.shdr, Enc(f)));
    var data := SectionParts(s, j, f.native, Enc(f), f.ehdr.shoff, mine, header);
    DataSpread(s, j, f.native, Enc(f), s.shdr.offset, s.shdr.offset + s.shdr.size, data);
    if Filed(s, j) {
      if i < j {
        assert LaterBehind(f, i, h.offset + h.size);
      } else {
        assert LaterBehind(f, j, s.shdr.offset + s.shdr.size);
      }
    }
  }

  lemma OwnSectionClear(f: File, end: nat, i: nat, at: nat, p: nat, p': nat, mine: seq<Piece>)
    requires Regular(f, end) && i < |f.sections| && Filed(f.sections[i], i) && at < f.sections[i].shdr.size
    requires Uncovered(f.sections[i].shdr.stype, f.sections[i].data, at)
    requires p == f.sections[i].shdr.offset + at && p' == p + 1
    requires WriteSection(f.sections[i], i, f.native, Enc(f), f.ehdr.shoff) == Pieces(mine)
    ensures Clear(mine, p, p')
  {
    var s := f.sections[i];
    assert Situated(s, i, Start(f), f.ehdr.shoff);
    var header := Piece(f.ehdr.shoff + ShdrBytes(i), StoreShdr(s.shdr, Enc(f)));
    var data := SectionParts(s, i, f.native, Enc(f), f.ehdr.shoff, mine, header);
    OwnDataClear(s, i, f.native, Enc(f), data, at, p, p');
  }

  /** Between the buffers of a section the file has what was in the buffer before. */
  lemma GapUnwritten(f: File, b: seq<byte>, ps: seq<Piece>, i: nat, at: nat, p: nat)
    requires Regular(f, |b|) && WriteFile(f) == Pieces(ps) && Fits(ps, |b|)
    requires i < |f.sections| && Filed(f.sections[i], i) && at < f.sections[i].shdr.size
    requires Uncovered(f.sections[i].shdr.stype, f.sections[i].data, at) && p == f.sections[i].shdr.offset + at
    ensures p < |b| && PatchAll(b, ps)[p] == b[p]
  {
    var p' := p + 1;
    var headers, sections := FileParts(f, ps);
    HeadersWithin(f);
    assert Situated(f.sections[i], i, Start(f), f.ehdr.shoff);
    var ws := Writings(f);
    forall j {:trigger ws[j]} | 0 <= j < |ws| && ws[j].Pieces?
      ensures Clear(ws[j].ps, p, p')
    {
      if j == i {
        OwnSectionClear(f, |b|, i, at, p, p', ws[j].ps);
      } else {
        OtherSectionClear(f, |b|, i, j, p, p', ws[j].ps);
      }
    }
    JoinClear(ws, p, p');
    ClearSum(headers, sections, p, p');
    ClearStays(b, ps, p, p');
    assert PatchAll(b, ps)[p] == PatchAll(b, ps)[p..p'][0] && b[p] == b[p..p'][0];
  }

  // ----- Sections of bytes -----

  /** Each buffer is at its offset. */
  ghost predicate BuffersAt(r: seq<byte>, ds: seq<Data>) {
    forall k {:trigger ds[k]} :: 0 <= k < |ds| && ds[k].size > 0 ==> BufferAt(r, ds[k])
  }

  ghost predicate BufferAt(r: seq<byte>, d: Data) {
    d.buf.Some? && d.off + d.size <= |r| && r[d.off..d.off + d.size] == d.buf.value
  }

  predicate Filled(r: seq<byte>, fill: seq<byte>, stype: Word, ds: seq<Data>) {
    |r| == |fill| && forall at {:trigger r[at]} :: 0 <= at < |r| && Uncovered(stype, ds, at) ==> r[at] == fill[at]
  }

  /** The buffers at their offsets, and the fill bytes everywhere else. */
  ghost predicate Assembled(r: seq<byte>, fill: seq<byte>, stype: Word, ds: seq<Data>) {
    BuffersAt(r, ds) && Filled(r, fill, stype, ds)
  }

  predicate BytesOnly(ds: seq<Data>) {
    forall k {:trigger ds[k]} :: 0 <= k < |ds| ==> ds[k].dtype == TByte
  }

  lemma PlacedCount(f: File, i: nat, g: File)
    requires Defaulted(f) && g == Layout(f).value.0 && i < |f.sections| && Filed(f.sections[i], i)
    ensures |g.sections| == |f.sections| && |g.sections[i].data| == |f.sections[i].data|
    ensures Filed(g.sections[i], i) && g.sections[i].shdr.stype == f.sections[i].shdr.stype
  {
    TypesKept(f, i);
    LiveSectionLaidOut(f, i);
    PlacedInOrder(f.sections[i].shdr.stype, f.sections[i].data, 0);
  }

  /** A buffer of a section that was laid out. */
  lemma PlacedBuffer(f: File, i: nat, g: File, k: nat)
    requires Defaulted(f) && g == Layout(f).value.0 && i < |f.sections| == |g.sections| && Filed(f.sections[i], i)
    requires k < |f.sections[i].data|
    ensures var s, d := g.sections[i], f.sections[i].data[k];
            && s.shdr.stype == f.sections[i].shdr.stype && |s.data| == |f.sections[i].data|
            && s.data[k] == Moved(d, s.data[k].off) && DataSize(s.shdr.stype, d).Some?
            && s.data[k].off + DataSize(s.shdr.stype, d).value <= s.shdr.size
  {
    TypesKept(f, i);
    LiveSectionLaidOut(f, i);
    PlacedInOrder(f.sections[i].shdr.stype, f.sections[i].data, 0);
    InOrderAt(f.sections[i].shdr.stype, g.sections[i].data, 0, LengthOf(f.sections[i]), k);
  }

  /** The file `g` was laid out by default and is written over the buffer `b`. */
  ghost predicate Written(f: File, g: File, b: seq<byte>, ps: seq<Piece>) {
    && Defaulted(f) && BuffersSized(f) && g == Layout(f).value.0 && |b| == Layout(f).value.1
        && WriteFile(g) == Pieces(ps)
    && |g.sections| == |f.sections|
  }

  /** Buffer `d` is the `k`-th of section `i` and lies from `lo` to `hi` in the file. */
  ghost predicate BufferLies(f: File, g: File, i: nat, k: nat, d: Data, lo: nat, hi: nat) {
    && i < |f.sections| == |g.sections| && Filed(f.sections[i], i) && BytesOnly(f.sections[i].data)
    && k < |f.sections[i].data| == |g.sections[i].data| && d == g.sections[i].data[k] && d.size > 0
    && lo == g.sections[i].shdr.offset + d.off && hi == lo + d.size
  }

  lemma BufferOfSection(f: File, b: seq<byte>, ps: seq<Piece>, i: nat, k: nat, g: File, d: Data, lo: nat, hi: nat)
    requires Written(f, g, b, ps) && BufferLies(f, g, i, k, d, lo, hi)
    ensures Fits(ps, |b|) && hi <= |b| && d.buf.Some? && PatchAll(b, ps)[lo..hi] == d.buf.value
    ensures d.off + d.size <= g.sections[i].shdr.size
  {
    PlacedBuffer(f, i, g, k);
    BufferInFile(f, b, ps, i, k, f.sections[i].data[k], lo, hi);
  }

  lemma GetBytesIs(image: seq<byte>, h: Shdr, index: nat, encoding: nat, native: nat, end: nat)
    requires index != SHN_UNDEF && OnDisk(h) && SectionType(h.stype) == TByte && h.size > 0
    requires end == h.offset + h.size && end <= |image|
    ensures GetData(image, h, index, encoding, native) == Cooked(Contents(TByte, image[h.offset..end]))
  {
  }

  lemma BufferAssembled(out: seq<byte>, base: nat, end: nat, r: seq<byte>, off: nat, size: nat, lo: nat, hi: nat)
    requires base <= end <= |out| && r == out[base..end] && lo == base + off && hi == lo + size
             && off + size <= end - base
    ensures off + size <= |r| && r[off..off + size] == out[lo..hi]
  {
    SliceOfSlice(out, base, end, off, off + size);
  }

  lemma SectionInside(f: File, b: seq<byte>, ps: seq<Piece>, i: nat, g: File, s: Section, end: nat)
    requires Written(f, g, b, ps) && i < |f.sections| && Filed(f.sections[i], i) && s == g.sections[i]
    requires end == s.shdr.offset + s.shdr.size
    ensures Regular(g, |b|) && Fits(ps, |b|) && end <= |b|
  {
    PlacedCount(f, i, g);
    DefaultIsRegular(f);
    FileFits(g, |b|, ps);
    assert Situated(s, i, Start(g), g.ehdr.shoff);
  }

  lemma SectionBuffer(f: File, b: seq<byte>, ps: seq<Piece>, i: nat, g: File, k: nat, d: Data, lo: nat, hi: nat,
                      base: nat, end: nat, out: seq<byte>, r: seq<byte>)
    requires Written(f, g, b, ps) && BufferLies(f, g, i, k, d, lo, hi)
    requires base == g.sections[i].shdr.offset && end == base + g.sections[i].shdr.size && end <= |b| == |out|
    requires Fits(ps, |b|) && out == PatchAll(b, ps) && r == out[base..end]
    ensures BufferAt(r, d)
  {
    BufferOfSection(f, b, ps, i, k, g, d, lo, hi);
    BufferInSlice(out, base, end, r, d, lo, hi);
  }

  lemma BufferInSlice(out: seq<byte>, base: nat, end: nat, r: seq<byte>, d: Data, lo: nat, hi: nat)
    requires base <= end <= |out| && r == out[base..end] && lo == base + d.off && hi == lo + d.size
             && d.off + d.size <= end - base && d.buf.Some? && out[lo..hi] == d.buf.value
    ensures BufferAt(r, d)
  {
    BufferAssembled(out, base, end, r, d.off, d.size, lo, hi);
  }

  lemma SectionBuffers(f: File, b: seq<byte>, ps: seq<Piece>, i: nat, g: File, h: Shdr, ds: seq<Data>, end: nat,
                       out: seq<byte>, r: seq<byte>)
    requires Written(f, g, b, ps) && i < |f.sections| && Filed(f.sections[i], i) && BytesOnly(f.sections[i].data)
    requires h == g.sections[i].shdr && ds == g.sections[i].data && |ds| == |f.sections[i].data|
    requires Fits(ps, |b|) && out == PatchAll(b, ps) && end == h.offset + h.size <= |b| && r == out[h.offset..end]
    ensures BuffersAt(r, ds)
  {
    forall k {:trigger ds[k]} | 0 <= k < |ds| && ds[k].size > 0
      ensures BufferAt(r, ds[k])
    {
      var lo := h.offset + ds[k].off;
      SectionBuffer(f, b, ps, i, g, k, ds[k], lo, lo + ds[k].size, h.offset, end, out, r);
    }
  }

  lemma GapByte(g: File, b: seq<byte>, ps: seq<Piece>, i: nat, s: Section, at: nat, p: nat, out: seq<byte>)
    requires Regular(g, |b|) && WriteFile(g) == Pieces(ps) && Fits(ps, |b|) && i < |g.sections| && s == g.sections[i]
             && Filed(s, i)
    requires p == s.shdr.offset + at && at < s.shdr.size && Uncovered(s.shdr.stype, s.data, at)
             && out == PatchAll(b, ps)
    ensures p < |b| && out[p] == b[p]
  {
    GapUnwritten(g, b, ps, i, at, p);
  }

  lemma ByteOfSlice(out: seq<byte>, base: nat, end: nat, r: seq<byte>, at: nat, p: nat)
    requires base <= end <= |out| && r == out[base..end] && at < |r| && p == base + at
    ensures p < |out| && r[at] == out[p]
  {
  }

  lemma SectionGaps(g: File, b: seq<byte>, ps: seq<Piece>, i: nat, s: Section, base: nat, end: nat, out: seq<byte>,
                    r: seq<byte>, fill: seq<byte>)
    requires Regular(g, |b|) && WriteFile(g) == Pieces(ps) && Fits(ps, |b|) && i < |g.sections| && s == g.sections[i]
             && Filed(s, i)
    requires base == s.shdr.offset && end == base + s.shdr.size && end <= |b| == |out|
    requires out == PatchAll(b, ps) && r == out[base..end] && fill == b[base..end]
    ensures Filled(r, fill, s.shdr.stype, s.data)
  {
    forall at {:trigger r[at]} | 0 <= at < |r| && Uncovered(s.shdr.stype, s.data, at)
      ensures r[at] == fill[at]
    {
      var p := base + at;
      GapByte(g, b, ps, i, s, at, p, out);
      ByteOfSlice(out, base, end, r, at, p);
      ByteOfSlice(b, base, end, fill, at, p);
    }
  }

  /** A section of any number of byte buffers is read back as those buffers, with fill bytes in the gaps that
      their alignment left. */
  lemma WriteThenGetBytes(f: File, b: seq<byte>, ps: seq<Piece>, i: nat, g: File, s: Section, end: nat)
    requires Written(f, g, b, ps) && i < |f.sections| && Filed(f.sections[i], i) && BytesOnly(f.sections[i].data)
             && s == g.sections[i]
    requires SectionType(s.shdr.stype) == TByte && s.shdr.size > 0 && end == s.shdr.offset + s.shdr.size
    ensures Fits(ps, |b|) && end <= |b|
    ensures var r := PatchAll(b, ps)[s.shdr.offset..end];
            && GetData(PatchAll(b, ps), s.shdr, i, Encoding(f), f.native) == Cooked(Contents(TByte, r))
            && Assembled(r, b[s.shdr.offset..end], s.shdr.stype, s.data)
  {
    SectionInside(f, b, ps, i, g, s, end);
    PlacedCount(f, i, g);
    GetBytesIs(PatchAll(b, ps), s.shdr, i, Encoding(f), f.native, end);
    var out := PatchAll(b, ps);
    var r, fill := out[s.shdr.offset..end], b[s.shdr.offset..end];
    SectionBuffers(f, b, ps, i, g, s.shdr, s.data, end, out, r);
    SectionGaps(g, b, ps, i, s, s.shdr.offset, end, out, r, fill);
  }

  // ----- Sections of version records -----

  /** What was read holds the records of `buf`. */
  ghost predicate RecordsBack(bytes: seq<byte>, buf: seq<byte>, kind: RecordKind, native: nat)
    requires Sound(kind) && Walk(kind, buf, native, 0).Walked?
  {
    var visits := Walk(kind, buf, native, 0).visits;
    && |bytes| == |buf| && AllInside(visits, |buf|)
    && forall k :: 0 <= k < |visits| ==> Bytes(bytes, visits[k]) == Bytes(buf, visits[k])
  }

  lemma VersionsToMemory(t: ElfType, kind: RecordKind, r: seq<byte>, buf: seq<byte>, encoding: nat, native: nat)
    requires KindOf(t) == Some(kind) && |r| == |buf| && Walk(kind, buf, native, 0).Walked?
    requires Separable(Walk(kind, buf, native, 0).visits, encoding, native)
    requires VersionsRestored(kind, r, buf, encoding, native)
    ensures ToMemory(t, r, encoding, native).Cooked?
            && RecordsBack(ToMemory(t, r, encoding, native).value, buf, kind, native)
  {
    SeparableIsSpared(r, encoding, native, Walk(kind, buf, native, 0).visits);
    WholeTranslated(kind, Buffers(r, r, true), encoding, native);
  }

  lemma VersionsRead(r: seq<byte>, d: Data, kind: RecordKind, buf: seq<byte>, encoding: nat, native: nat)
    requires d.buf == Some(buf) && KindOf(d.dtype) == Some(kind) && Restores(r, d, encoding, native)
    requires Separable(Walk(kind, buf, native, 0).visits, encoding, native)
    ensures var c := ToMemory(d.dtype, r, encoding, native); c.Cooked? && RecordsBack(c.value, buf, kind, native)
  {
    SeparableAgrees(buf, native, encoding, Walk(kind, buf, native, 0).visits);
    VersionsToMemory(d.dtype, kind, r, buf, encoding, native);
  }

  lemma GetDataOf(image: seq<byte>, h: Shdr, index: nat, encoding: nat, native: nat, end: nat, r: seq<byte>)
    requires index != SHN_UNDEF && OnDisk(h) && h.size > 0 && h.offset + h.size == end <= |image|
             && r == image[h.offset..end]
    ensures GetData(image, h, index, encoding, native)
         == AsContents(SectionType(h.stype), ToMemory(SectionType(h.stype), r, encoding, native))
  {
  }

  /** Section `i` of the file is one buffer of good version records, none overlapping another. */
  ghost predicate IsVersionSection(f: File, i: nat, d: Data, kind: RecordKind, buf: seq<byte>) {
    && i < |f.sections| && Filed(f.sections[i], i) && f.sections[i].data == [d] && d.size > 0 && d.buf == Some(buf)
    && d.dtype == SectionType(f.sections[i].shdr.stype) && KindOf(d.dtype) == Some(kind)
    && Walk(kind, buf, f.native, 0).Walked?
    && Separable(Walk(kind, buf, f.native, 0).visits, Encoding(f), f.native)
  }

  lemma VersionsInFile(f: File, b: seq<byte>, ps: seq<Piece>, i: nat, g: File, h: Shdr, d: Data, kind: RecordKind,
                       buf: seq<byte>, end: nat)
    requires Written(f, g, b, ps) && IsVersionSection(f, i, d, kind, buf) && h == g.sections[i].shdr
             && end == h.offset + h.size
    ensures Fits(ps, |b|) && h.offset <= end <= |b| && OnDisk(h) && h.size > 0 && SectionType(h.stype) == d.dtype
    ensures Restores(PatchAll(b, ps)[h.offset..end], d, Encoding(f), f.native)
  {
    OnlyBuffer(f, i);
    TypesKept(f, i);
    assert f.sections[i].data[0] == d;
    VersionsHaveSize(h.stype, d, h.size);
    WriteThenReadBuffer(f, b, ps, i, 0, h.offset, end);
  }

  lemma VersionsHaveSize(stype: Word, d: Data, size: nat)
    requires DataSize(stype, d) == Some(size) && d.size > 0 && KindOf(d.dtype).Some?
    ensures size > 0
  {
  }

  /** Such a section is read back with the same records. */
  lemma WriteThenGetVersions(f: File, b: seq<byte>, ps: seq<Piece>, i: nat, g: File, h: Shdr, d: Data,
                             kind: RecordKind, buf: seq<byte>)
    requires Written(f, g, b, ps) && IsVersionSection(f, i, d, kind, buf) && h == g.sections[i].shdr
    ensures Fits(ps, |b|)
    ensures var c := GetData(PatchAll(b, ps), h, i, Encoding(f), f.native);
            c.Cooked? && c.value.Contents? && c.value.dtype == d.dtype
                && RecordsBack(c.value.bytes, buf, kind, f.native)
  {
    var end: nat := h.offset + h.size;
    VersionsInFile(f, b, ps, i, g, h, d, kind, buf, end);
    var r := PatchAll(b, ps)[h.offset..end];
    VersionsRead(r, d, kind, buf, Encoding(f), f.native);
    GetDataOf(PatchAll(b, ps), h, i, Encoding(f), f.native, end, r);
  }
}
