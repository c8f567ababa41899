/**
 A default layout wastes no place: nothing is put later than its alignment asks for. A caller's layout is kept. And
 which files are not laid out.
 */
module ElfLayoutTight {
  import opened Basics
  import opened ElfTypes
  import opened ElfLayout
  import opened ElfLayoutLaws

  // ----- Sizes of buffers -----

  /** The size of one element of a buffer in the file, by the System V gABI; one for bytes and version records. */
  function ElementSize(t: ElfType): nat {
    match t
    case TSym => 16
    case TRela => 12
    case TDyn | TRel => 8
    case TAddr | TOff | TSword | TWord => 4
    case THalf => 2
    case TEhdr => 52
    case TPhdr => 32
    case TShdr => 40
    case _ => 1
  }

  /** A buffer of the one version there is, of a type that class 32 has, or without need for a type. */
  predicate HasLength(stype: Word, d: Data) {
    d.version == 1 && (d.size == 0 || stype == 8 || (d.dtype != TSxword && d.dtype != TXword))
  }

  /** As many bytes as whole elements have; sections without data in the file keep the size in memory. */
  function FileLength(stype: Word, d: Data): nat {
    if stype == 8 then d.size else d.size - d.size % ElementSize(d.dtype)
  }

  lemma BufferSizeExactly(stype: Word, d: Data)
    ensures DataSize(stype, d).Some? <==> HasLength(stype, d)
    ensures HasLength(stype, d) ==> DataSize(stype, d) == Some(FileLength(stype, d))
  {
    if DataSize(stype, d).Some? && FileSize(d.dtype) > 0 {
      RestOfQuotient(d.size, FileSize(d.dtype));
    }
  }

  lemma RestOfQuotient(n: nat, size: nat)
    requires size > 0
    ensures n / size * size == n - n % size
  {
    assert n == n / size * size + n % size;
  }

  // ----- The buffers of a section -----

  /** Where the first `k` buffers end. */
  function BuffersEnd(stype: Word, ds: seq<Data>, k: nat, start: nat): nat
    requires k <= |ds|
  {
    if k == 0 then start else ds[k - 1].off + FileLength(stype, ds[k - 1])
  }

  /** Every buffer is behind the one before it, as near as its alignment allows. */
  ghost predicate BuffersTight(stype: Word, ds: seq<Data>, start: nat) {
    forall k {:trigger ds[k]} :: 0 <= k < |ds| ==>
      BuffersEnd(stype, ds, k, start) <= ds[k].off < BuffersEnd(stype, ds, k, start) + Max(1, ds[k].align)
  }

  lemma {:induction false} PlacedTight(stype: Word, ds: seq<Data>, len: nat, ts: seq<Data>, end: nat)
    requires PlaceData(stype, ds, len) == Some((ts, end))
    ensures |ts| == |ds| && BuffersTight(stype, ts, len) && end == BuffersEnd(stype, ts, |ts|, len)
    decreases |ds|
  {
    if ds != [] {
      BufferSizeExactly(stype, ds[0]);
      var off := AlignUp(len, ds[0].align);
      var next := off + DataSize(stype, ds[0]).value;
      var rest := PlaceData(stype, ds[1..], next).value.0;
      PlacedTight(stype, ds[1..], next, rest, end);
      assert ts == [Moved(ds[0], off)] + rest;
      TightCons(stype, Moved(ds[0], off), rest, ts, len, next, end);
    }
  }

  lemma TightCons(stype: Word, d: Data, rest: seq<Data>, ts: seq<Data>, len: nat, next: nat, end: nat)
    requires ts == [d] + rest && next == d.off + FileLength(stype, d) && len <= d.off < len + Max(1, d.align)
    requires BuffersTight(stype, rest, next) && end == BuffersEnd(stype, rest, |rest|, next)
    ensures BuffersTight(stype, ts, len) && end == BuffersEnd(stype, ts, |ts|, len)
  {
    forall k {:trigger ts[k]} | 0 <= k < |ts|
      ensures BuffersEnd(stype, ts, k, len) <= ts[k].off < BuffersEnd(stype, ts, k, len) + Max(1, ts[k].align)
    {
      if k > 0 {
        assert ts[k] == rest[k - 1] && (k > 1 ==> ts[k - 1] == rest[k - 2]);
      }
    }
    assert rest != [] ==> ts[|ts| - 1] == rest[|rest| - 1];
  }

  /** The alignment of a section is the greatest of its buffers, or one. */
  ghost predicate Greatest(ds: seq<Data>, a: nat, least: nat) {
    && (forall k {:trigger ds[k]} :: 0 <= k < |ds| ==> ds[k].align <= a) && least <= a
    && (a == least || exists k {:trigger ds[k]} :: 0 <= k < |ds| && ds[k].align == a)
  }

  lemma {:induction false} MaxAlignIsGreatest(ds: seq<Data>, least: nat)
    ensures Greatest(ds, MaxAlign(ds, least), least)
    decreases |ds|
  {
    if ds != [] {
      var m, rest := Max(least, ds[0].align), ds[1..];
      var a := MaxAlign(rest, m);
      MaxAlignIsGreatest(rest, m);
      forall k {:trigger ds[k]} | 0 <= k < |ds|
        ensures ds[k].align <= a
      {
        assert k > 0 ==> ds[k] == rest[k - 1];
      }
      if a != m {
        var k :| 0 <= k < |rest| && rest[k].align == a;
        assert ds[k + 1].align == a;
      } else {
        assert ds[0].align <= a;
      }
    }
  }

  // ----- The sections -----

  /** Where the last live section of the first `i` ends in the file. */
  function EndBefore(ss: seq<Section>, index: nat, i: nat, start: nat): nat
    requires i <= |ss|
  {
    if i == 0 then start
    else if Live(ss[i - 1], index + (i - 1)) then End(ss[i - 1].shdr)
    else EndBefore(ss, index, i - 1, start)
  }

  /** The section starts as near to `from` as its alignment allows, and is as long as its buffers. */
  ghost predicate SectionTight(s: Section, from: nat) {
    && from <= s.shdr.offset < from + s.shdr.addralign && Greatest(s.data, s.shdr.addralign, 1)
    && BuffersTight(s.shdr.stype, s.data, 0) && s.shdr.size == ToWord(BuffersEnd(s.shdr.stype, s.data, |s.data|, 0))
  }

  /** The alignments fit their field. */
  predicate AlignsFit(s: Section) {
    forall k {:trigger s.data[k]} :: 0 <= k < |s.data| ==> s.data[k].align < WORD
  }

  lemma SameAligns(ds: seq<Data>, ts: seq<Data>, a: nat)
    requires Greatest(ds, a, 1) && |ts| == |ds|
    requires forall k {:trigger ts[k]} :: 0 <= k < |ds| ==> ts[k].align == ds[k].align
    ensures Greatest(ts, a, 1)
  {
    if a != 1 {
      var k :| 0 <= k < |ds| && ds[k].align == a;
      assert ts[k].align == a;
    }
  }

  lemma SectionPlacedTight(s: Section, index: nat, off: nat, t: Section, end: nat)
    requires PlaceSection(s, index, off) == Some((t, end)) && Live(s, index) && end < WORD && AlignsFit(s)
    ensures Live(t, index) && SectionTight(t, off)
    ensures end == End(t.shdr)
  {
    var (data, len) := PlaceData(s.shdr.stype, s.data, 0).value;
    var al := MaxAlign(s.data, 1);
    MaxAlignIsGreatest(s.data, 1);
    assert al < WORD;
    PlacedTight(s.shdr.stype, s.data, 0, data, len);
    PlacedInOrder(s.shdr.stype, s.data, 0);
    SameAligns(s.data, data, al);
  }

  ghost predicate AllTight(ts: seq<Section>, index: nat, off: nat) {
    forall i {:trigger ts[i]} :: 0 <= i < |ts| && Live(ts[i], index + i) ==>
      SectionTight(ts[i], EndBefore(ts, index, i, off))
  }

  lemma {:induction false} EndBeforeCons(t: Section, rest: seq<Section>, ts: seq<Section>, index: nat, i: nat, off: nat,
                                         next: nat)
    requires ts == [t] + rest && i <= |rest| && next == if Live(t, index) then End(t.shdr) else off
    ensures EndBefore(ts, index, i + 1, off) == EndBefore(rest, index + 1, i, next)
    decreases i
  {
    if i > 0 {
      assert ts[i] == rest[i - 1];
      EndBeforeCons(t, rest, ts, index, i - 1, off, next);
    }
  }

  lemma TightConsSection(t: Section, rest: seq<Section>, ts: seq<Section>, index: nat, off: nat, next: nat)
    requires ts == [t] + rest && next == (if Live(t, index) then End(t.shdr) else off)
    requires (Live(t, index) ==> SectionTight(t, off)) && AllTight(rest, index + 1, next)
    ensures AllTight(ts, index, off)
  {
    forall i {:trigger ts[i]} | 0 <= i < |ts| && Live(ts[i], index + i)
      ensures SectionTight(ts[i], EndBefore(ts, index, i, off))
    {
      if i > 0 {
        assert ts[i] == rest[i - 1];
        EndBeforeCons(t, rest, ts, index, i - 1, off, next);
      }
    }
  }

  lemma FirstTight(s: Section, index: nat, off: nat, t: Section, next: nat)
    requires PlaceSection(s, index, off) == Some((t, next)) && next < WORD && AlignsFit(s)
    ensures Live(t, index) ==> SectionTight(t, off)
    ensures next == if Live(t, index) then End(t.shdr) else off
  {
    if Live(s, index) {
      SectionPlacedTight(s, index, off, t, next);
    }
  }

  lemma {:induction false} SectionsPlacedTight(ss: seq<Section>, index: nat, off: nat, ts: seq<Section>, end: nat)
    requires PlaceSections(ss, index, off) == Some((ts, end)) && end < WORD
    requires forall i {:trigger ss[i]} :: 0 <= i < |ss| ==> AlignsFit(ss[i])
    ensures |ts| == |ss| && AllTight(ts, index, off) && end == EndBefore(ts, index, |ts|, off)
    decreases |ss|
  {
    if ss != [] {
      var (t, next) := PlaceSection(ss[0], index, off).value;
      var rest := PlaceSections(ss[1..], index + 1, next).value.0;
      PlacedSections(ss[1..], index + 1, next);
      FirstTight(ss[0], index, off, t, next);
      SectionsPlacedTight(ss[1..], index + 1, next, rest, end);
      assert ts == [t] + rest;
      TightConsSection(t, rest, ts, index, off, next);
      EndBeforeCons(t, rest, ts, index, |rest|, off, next);
    }
  }

  /** The null section does not matter. */
  lemma {:induction false} SameEnds(ss: seq<Section>, ts: seq<Section>, i: nat, start: nat)
    requires |ss| == |ts| && i <= |ss| && forall k :: 0 < k < |ss| ==> ss[k] == ts[k]
    ensures EndBefore(ss, 0, i, start) == EndBefore(ts, 0, i, start)
  {
    if i > 0 {
      SameEnds(ss, ts, i - 1, start);
    }
  }

  /** Program headers, sections and section headers follow each other without a gap that no alignment asks for. */
  lemma DefaultLayoutIsTight(f: File, g: File, len: nat, start: nat)
    requires Defaulted(f) && Layout(f) == Laid((g, len)) && start == 52 + 32 * |f.phdrs|
    requires forall i {:trigger f.sections[i]} :: 0 <= i < |f.sections| ==> AlignsFit(f.sections[i])
    ensures AllTight(g.sections, 0, start)
    ensures var end := EndBefore(g.sections, 0, |g.sections|, start);
            if f.sections == [] then len == end
            else end <= g.ehdr.shoff < end + 4 && len == g.ehdr.shoff + 40 * |f.sections|
  {
    DefaultParts(f);
    Sections0Same(f);
    var (ts, off) := PlaceSections(Sections0(f), 0, AfterPhdrs(f)).value;
    assert PhdrBytes(|f.phdrs|) == 32 * |f.phdrs| && ShdrBytes(|f.sections|) == 40 * |f.sections|;
    assert forall i {:trigger Sections0(f)[i]} :: 0 <= i < |f.sections| ==> AlignsFit(f.sections[i]);
    SectionsPlacedTight(Sections0(f), 0, start, ts, off);
    forall i {:trigger g.sections[i]} | 0 <= i < |g.sections| && Live(g.sections[i], i)
      ensures SectionTight(g.sections[i], EndBefore(g.sections, 0, i, start))
    {
      assert g.sections[i] == ts[i];
      SameEnds(g.sections, ts, i, start);
    }
    SameEnds(g.sections, ts, |ts|, start);
  }

  lemma {:induction false} NullsPlaced(ss: seq<Section>, index: nat, off: nat, i: nat)
    requires PlaceSections(ss, index, off).Some? && i < |ss| && index + i > 0 && ss[i].shdr.stype == 0
    ensures var ts := PlaceSections(ss, index, off).value.0; |ts| == |ss| && ts[i] == ss[i]
    decreases i
  {
    PlacedSections(ss, index, off);
    if i > 0 {
      var next := PlaceSection(ss[0], index, off).value.1;
      NullsPlaced(ss[1..], index + 1, next, i - 1);
    }
  }

  /** The first header is cleared but for the counts that it holds; other null sections stay as they are. */
  lemma NullSections(f: File, g: File, len: nat, i: nat)
    requires Defaulted(f) && Layout(f) == Laid((g, len)) && i < |f.sections| == |g.sections|
    ensures i == 0 ==>
              g.sections[0].shdr
              == f.sections[0].shdr.(offset := 0, addralign := 0, entsize := 0,
                                     size := if |f.sections| >= 0xff00 then ToWord(|f.sections|) else 0,
                                     info := if |f.phdrs| >= 0xffff then ToWord(|f.phdrs|)
                                             else f.sections[0].shdr.info)
    ensures i > 0 && f.sections[i].shdr.stype == 0 ==> g.sections[i] == f.sections[i]
  {
    DefaultParts(f);
    Sections0Same(f);
    if i > 0 && f.sections[i].shdr.stype == 0 {
      NullsPlaced(Sections0(f), 0, AfterPhdrs(f), i);
    }
  }

  // ----- What is not laid out -----

  lemma {:induction false} BuffersHaveLengths(stype: Word, ds: seq<Data>, len: nat)
    ensures PlaceData(stype, ds, len).Some? <==> forall k {:trigger ds[k]} :: 0 <= k < |ds| ==> HasLength(stype, ds[k])
    decreases |ds|
  {
    if ds != [] {
      BufferSizeExactly(stype, ds[0]);
      BuffersHaveLengths(stype, ds[1..], AlignUp(len, ds[0].align) + FileLength(stype, ds[0]));
      assert forall k {:trigger ds[k]} :: 0 < k < |ds| ==> ds[k] == ds[1..][k - 1];
    }
  }

  /** All buffers of a live section have a length in the file. */
  ghost predicate HasLengths(s: Section, index: nat) {
    Live(s, index) ==> forall k {:trigger s.data[k]} :: 0 <= k < |s.data| ==> HasLength(s.shdr.stype, s.data[k])
  }

  lemma {:induction false} SectionsHaveLengths(ss: seq<Section>, index: nat, off: nat)
    ensures PlaceSections(ss, index, off).Some? <==>
            forall i {:trigger ss[i]} :: 0 <= i < |ss| ==> HasLengths(ss[i], index + i)
    decreases |ss|
  {
    if ss != [] {
      BuffersHaveLengths(ss[0].shdr.stype, ss[0].data, 0);
      var first := PlaceSection(ss[0], index, off);
      assert first.Some? <==> HasLengths(ss[0], index);
      if first.Some? {
        SectionsHaveLengths(ss[1..], index + 1, first.value.1);
      }
      assert forall i {:trigger ss[i]} :: 0 < i < |ss| ==> ss[i] == ss[1..][i - 1];
    }
  }

  /** Which default layouts fail, and how: another version than one or none, another byte order than the two or none, or
      a buffer without a length in the file. */
  lemma DefaultRefusedExactly(f: File)
    requires (|f.phdrs| >= PN_XNUM ==> f.sections != []) && !f.callerLayout
    ensures var order := if f.ehdr.ident[5] == 0 then f.native else f.ehdr.ident[5];
            var lengths := forall i {:trigger f.sections[i]} :: 0 <= i < |f.sections| ==> HasLengths(f.sections[i], i);
            if f.ehdr.version !in {0, 1} then Layout(f) == Failed(UnknownVersion)
            else if order !in {1, 2} then Layout(f) == Failed(UnknownEncoding)
            else if !lengths then Layout(f) == Failed(BadData)
            else Layout(f).Laid?
  {
    Sections0Same(f);
    SectionsHaveLengths(Sections0(f), 0, AfterPhdrs(f));
  }

  // ----- A caller's layout -----

  /** A section of a caller's layout gets an entry size at most. */
  ghost predicate EntrySizeOnly(t: Section, s: Section) {
    t.shdr == s.shdr.(entsize := t.shdr.entsize) && t.data == s.data
  }

  lemma {:induction false} CheckedSectionsKept(ss: seq<Section>, i: nat, off: nat, allow: bool, ts: seq<Section>,
                                               end: nat)
    requires i <= |ss| && CheckSections(ss, i, off, allow) == Laid((ts, end))
    ensures |ts| == |ss| - i && forall k {:trigger ts[k]} :: 0 <= k < |ts| ==> EntrySizeOnly(ts[k], ss[i + k])
    ensures end == off || exists k {:trigger ss[k]} :: i <= k < |ss| && Live(ss[k], k) && end == End(ss[k].shdr)
    decreases |ss| - i
  {
    if i < |ss| {
      var (s, next) := CheckSection(ss, i, off, allow).value;
      var rest := CheckSections(ss, i + 1, next, allow).value.0;
      CheckedSectionsKept(ss, i + 1, next, allow, rest, end);
      assert ts == [s] + rest;
      forall k {:trigger ts[k]} | 0 <= k < |ts|
        ensures EntrySizeOnly(ts[k], ss[i + k])
      {
        if k > 0 {
          assert ts[k] == rest[k - 1];
        }
      }
      assert next == off || (Live(ss[i], i) && next == End(ss[i].shdr));
    }
  }

  /** A caller's layout keeps all offsets and sizes; the file ends with the last of what is in it. */
  lemma CallerLayoutKept(f: File, g: File, len: nat)
    requires (|f.phdrs| >= PN_XNUM ==> f.sections != []) && f.callerLayout && Layout(f) == Laid((g, len))
    ensures g.ehdr.phoff == f.ehdr.phoff && g.ehdr.shoff == f.ehdr.shoff && |g.sections| == |f.sections|
    ensures forall k {:trigger g.sections[k]} :: 0 < k < |f.sections| ==> EntrySizeOnly(g.sections[k], f.sections[k])
    ensures || len == 52 || (f.phdrs != [] && len == f.ehdr.phoff + 32 * |f.phdrs|)
            || (f.sections != [] && len == f.ehdr.shoff + 40 * |f.sections|)
            || exists k {:trigger f.sections[k]} ::
                 0 < k < |f.sections| && f.sections[k].shdr.stype != 0 && len == End(f.sections[k].shdr)
  {
    Sections0Same(f);
    var ss, start := Sections0(f), AfterPhdrs(f);
    var (ts, off) := LaySections(f).value;
    CheckedSectionsKept(ss, 0, start, f.allowOverlap, ts, off);
    assert PhdrBytes(|f.phdrs|) == 32 * |f.phdrs| && ShdrBytes(|f.sections|) == 40 * |f.sections|;
    assert forall k :: 0 < k < |f.sections| ==> ss[k] == f.sections[k] && g.sections[k] == ts[k];
  }

  lemma {:induction false} DataEndExactly(stype: Word, ds: seq<Data>, len: nat, size: nat)
    requires len <= size
    ensures DataEnd(stype, ds, len).Some? <==> forall k {:trigger ds[k]} :: 0 <= k < |ds| ==> HasLength(stype, ds[k])
    ensures DataEnd(stype, ds, len).Some? ==>
              (DataEnd(stype, ds, len).value <= size <==>
               forall k {:trigger ds[k]} :: 0 <= k < |ds| ==> ds[k].off + FileLength(stype, ds[k]) <= size)
    decreases |ds|
  {
    if ds != [] {
      BufferSizeExactly(stype, ds[0]);
      var first, rest := ds[0].off + FileLength(stype, ds[0]), ds[1..];
      if HasLength(stype, ds[0]) {
        if first <= size {
          DataEndExactly(stype, rest, Max(len, first), size);
        } else {
          DataEndExactly(stype, rest, Max(len, first), Max(len, first));
          DataEndGrows(stype, rest, Max(len, first));
        }
      }
      assert forall k {:trigger ds[k]} :: 0 < k < |ds| ==> ds[k] == rest[k - 1];
      assert forall k {:trigger rest[k]} :: 0 <= k < |rest| ==> rest[k] == ds[k + 1];
    }
  }

  lemma {:induction false} DataEndGrows(stype: Word, ds: seq<Data>, len: nat)
    ensures DataEnd(stype, ds, len).Some? ==> len <= DataEnd(stype, ds, len).value
    decreases |ds|
  {
    if ds != [] && DataSize(stype, ds[0]).Some? {
      DataEndGrows(stype, ds[1..], Max(len, ds[0].off + DataSize(stype, ds[0]).value));
    }
  }

  /** A section without data in the file ends where it starts. */
  function EndInFile(h: Shdr): nat {
    if h.stype == 8 then h.offset else h.offset + h.size
  }

  /** How one section of a caller's layout is checked: its buffers need lengths, and room in the section; and if it
      starts before the end `off` of what came before, it may not meet any earlier one. */
  lemma SectionCheckExactly(ss: seq<Section>, i: nat, off: nat, allow: bool, h: Shdr, ds: seq<Data>)
    requires i < |ss| && Live(ss[i], i) && h == ss[i].shdr && ds == ss[i].data
    ensures var r := CheckSection(ss, i, off, allow);
            if !forall k {:trigger ds[k]} :: 0 <= k < |ds| ==> HasLength(h.stype, ds[k]) then r == Failed(BadData)
            else if exists k {:trigger ds[k]} :: 0 <= k < |ds| && ds[k].off + FileLength(h.stype, ds[k]) > h.size then
              r == Failed(Scn2Small)
            else if !allow && h.offset < off
                    && (exists j {:trigger ss[j]} :: 0 <= j < i && EndInFile(h) > ss[j].shdr.offset
                                                     && EndInFile(ss[j].shdr) > h.offset) then
              r == Failed(ScnOverlap)
            else r.Laid? && r.value.1 == Max(off, EndInFile(h))
  {
    DataEndExactly(h.stype, ds, 0, h.size);
    assert OverlapsEarlier(ss, i) <==>
           exists j {:trigger ss[j]} :: 0 <= j < i && EndInFile(h) > ss[j].shdr.offset
                                        && EndInFile(ss[j].shdr) > h.offset by {
      if OverlapsEarlier(ss, i) {
        var j :| 0 <= j < i && Overlap(h, ss[j].shdr);
        assert EndInFile(h) > ss[j].shdr.offset && EndInFile(ss[j].shdr) > h.offset;
      }
    }
  }
}
