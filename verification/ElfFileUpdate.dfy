/**
 The update of a file: layout, and a write if anything is dirty.
 */
module ElfFileUpdate {
  import opened Basics
  import opened ElfTypes
  import opened ElfPatches
  import opened ElfLayout
  import opened ElfLayoutLaws
  import opened ElfLayoutAgain
  import opened ElfWriter
  import opened ElfWriterLaws
  import opened ElfReader
  import opened ElfCookLaws
  import opened ElfUpdate
  import opened ElfOutput

  // ----- A layout leaves room for everything that is written -----

  lemma BuffersHaveRoom(stype: Word, ds: seq<Data>, at: nat, size: nat, len: nat)
    requires InOrder(stype, ds, 0, size) && AllWellSized(ds) && at + size <= len
    ensures BuffersRoomy(stype, ds, at, len)
  {
    forall k {:trigger ds[k]} | 0 <= k < |ds|
      ensures DataSize(stype, ds[k]).Some? ==> at + ds[k].off + DataSize(stype, ds[k]).value <= len
    {
      InOrderAt(stype, ds, 0, size, k);
    }
  }

  lemma RoomyMore(stype: Word, ds: seq<Data>, at: nat, len: nat, at': nat, len': nat)
    requires BuffersRoomy(stype, ds, at, len) && at' <= at && len <= len'
    ensures BuffersRoomy(stype, ds, at', len')
  {
  }

  lemma PlacedRoomy(s: Section, index: nat, off: nat)
    requires PlaceSection(s, index, off).Some? && AllWellSized(s.data)
    ensures var (t, end) := PlaceSection(s, index, off).value;
            off <= end && SectionRoomy(t, index, end)
  {
    if Live(s, index) && s.shdr.stype != SHT_NOBITS {
      var (data, len) := PlaceData(s.shdr.stype, s.data, 0).value;
      var at := AlignUp(off, MaxAlign(s.data, 1));
      PlacedInOrder(s.shdr.stype, s.data, 0);
      MovedSized(s.data, data);
      BuffersHaveRoom(s.shdr.stype, data, at, len, at + len);
      RoomyMore(s.shdr.stype, data, at, at + len, ToWord(at), at + len);
    }
  }

  lemma {:induction false} AllPlacedRoomy(ss: seq<Section>, index: nat, off: nat)
    requires PlaceSections(ss, index, off).Some?
    requires forall i {:trigger ss[i]} :: 0 <= i < |ss| ==> AllWellSized(ss[i].data)
    ensures var (ts, end) := PlaceSections(ss, index, off).value;
            |ts| == |ss| && off <= end && forall i {:trigger ts[i]} :: 0 <= i < |ts| ==>
                SectionRoomy(ts[i], index + i, end)
  {
    if ss != [] {
      var (t, next) := PlaceSection(ss[0], index, off).value;
      PlacedRoomy(ss[0], index, off);
      AllPlacedRoomy(ss[1..], index + 1, next);
      var (rest, end) := PlaceSections(ss[1..], index + 1, next).value;
      if Filed(t, index) {
        RoomyMore(t.shdr.stype, t.data, t.shdr.offset, next, t.shdr.offset, end);
      }
    }
  }

  lemma {:induction false} WithinDataEnd(stype: Word, ds: seq<Data>, len: nat)
    requires DataEnd(stype, ds, len).Some?
    ensures len <= DataEnd(stype, ds, len).value
    ensures forall k {:trigger ds[k]} :: 0 <= k < |ds| ==>
              DataSize(stype, ds[k]).Some? && ds[k].off + DataSize(stype, ds[k]).value <= DataEnd(stype, ds, len).value
  {
    if ds != [] {
      WithinDataEnd(stype, ds[1..], Max(len, ds[0].off + DataSize(stype, ds[0]).value));
    }
  }

  lemma CheckedRoomy(ss: seq<Section>, i: nat, off: nat, allow: bool)
    requires i < |ss| && CheckSection(ss, i, off, allow).Laid? && AllWellSized(ss[i].data)
    ensures var (s, next) := CheckSection(ss, i, off, allow).value;
            off <= next && SectionRoomy(s, i, next)
  {
    if Live(ss[i], i) {
      WithinDataEnd(ss[i].shdr.stype, ss[i].data, 0);
    }
  }

  lemma {:induction false} AllCheckedRoomy(ss: seq<Section>, i: nat, off: nat, allow: bool)
    requires i <= |ss| && CheckSections(ss, i, off, allow).Laid?
    requires forall j {:trigger ss[j]} :: 0 <= j < |ss| ==> AllWellSized(ss[j].data)
    ensures var (ts, end) := CheckSections(ss, i, off, allow).value;
            |ts| == |ss| - i && off <= end && forall j {:trigger ts[j]} :: 0 <= j < |ts| ==>
                SectionRoomy(ts[j], i + j, end)
    decreases |ss| - i
  {
    if i < |ss| {
      var (t, next) := CheckSection(ss, i, off, allow).value;
      CheckedRoomy(ss, i, off, allow);
      AllCheckedRoomy(ss, i + 1, next, allow);
      var (rest, end) := CheckSections(ss, i + 1, next, allow).value;
      if Filed(t, i) {
        RoomyMore(t.shdr.stype, t.data, t.shdr.offset, next, t.shdr.offset, end);
      }
    }
  }

  lemma Sections0Sized(f: File)
    requires (|f.phdrs| >= PN_XNUM ==> f.sections != []) && BuffersSized(f)
    ensures |Sections0(f)| == |f.sections|
    ensures forall i {:trigger Sections0(f)[i]} :: 0 <= i < |f.sections| ==>
              AllWellSized(Sections0(f)[i].data)
  {
  }

  lemma LaidRoomy(f: File, ts: seq<Section>, off: nat)
    requires (|f.phdrs| >= PN_XNUM ==> f.sections != []) && BuffersSized(f) && LaySections(f) == Laid((ts, off))
    ensures |ts| == |f.sections| && AfterPhdrs(f) <= off
    ensures forall i {:trigger ts[i]} :: 0 <= i < |ts| ==>
              SectionRoomy(ts[i], i, off)
  {
    Sections0Sized(f);
    if f.callerLayout {
      AllCheckedRoomy(Sections0(f), 0, AfterPhdrs(f), f.allowOverlap);
    } else {
      AllPlacedRoomy(Sections0(f), 0, AfterPhdrs(f));
    }
  }

  lemma HeadersRoomy(f: File, off: nat, ts: seq<Section>)
    requires AfterPhdrs(f) <= off && |ts| == |f.sections| && ValidEncoding(Encoding(f))
    ensures var g, len := Finished(f, ts, HeadersAt(f, off).0), HeadersAt(f, off).1;
            && EHDR_SIZE <= off <= len && g.phdrs == f.phdrs && |g.sections| == |f.sections|
            && (|g.phdrs| > 0 ==> g.ehdr.phoff + PhdrBytes(|g.phdrs|) <= len)
            && (|g.sections| > 0 ==> g.ehdr.shoff + ShdrBytes(|g.sections|) <= len)
  {
    assert ToWord(HeadersAt(f, off).0) <= HeadersAt(f, off).0;
  }

  /** After any successful layout, every piece of the file fits the length that the layout gave. */
  lemma LayoutIsRoomy(f: File)
    requires (|f.phdrs| >= PN_XNUM ==> f.sections != []) && BuffersSized(f) && Layout(f).Laid?
    ensures Roomy(Layout(f).value.0, Layout(f).value.1)
  {
    var (ts, off) := LaySections(f).value;
    var g, len := Layout(f).value.0, Layout(f).value.1;
    LaidRoomy(f, ts, off);
    HeadersRoomy(f, off, ts);
    forall i {:trigger g.sections[i]} | 0 <= i < |g.sections|
      ensures SectionRoomy(g.sections[i], i, len)
    {
      if Filed(g.sections[i], i) {
        assert g.sections[i] == ts[i];
        RoomyMore(ts[i].shdr.stype, ts[i].data, ts[i].shdr.offset, off, ts[i].shdr.offset, len);
      }
    }
  }

  lemma CleanHeaders(g: File)
    ensures Clean(g).ehdr == g.ehdr && Clean(g).phdrs == g.phdrs && ShdrsOf(Clean(g).sections) == ShdrsOf(g.sections)
  {
  }

  lemma ReadsBack(f: File, g: File, len: nat, blank: seq<byte>, ps: seq<Piece>)
    requires (|f.phdrs| >= PN_XNUM ==> f.sections != []) && BuffersSized(f)
    requires !f.callerLayout && len < WORD && Layout(f) == Laid((g, len)) && |blank| == len
             && WriteFile(g) == Pieces(ps)
    ensures Fits(ps, len) && CookFile(PatchAll(blank, ps)) == Cooked(Headers(g.ehdr, ShdrsOf(g.sections), g.phdrs))
  {
    DefaultParts(f);
    WriteThenCook(f, blank, ps);
  }

  /** Why a file is not even laid out. */
  datatype Forbidden = ReadOnly | Disabled | BadCommand | NoHeader | OtherKind

  /** What an update asks of the descriptor. */
  datatype Handle = Handle(writable: bool, disabled: bool, hasEhdr: bool, isElf: bool)

  datatype Updated =
    | NotAllowed(reason: Forbidden)
    | Length(len: nat, image: Option<seq<byte>>)
    | NotLaidOut(layoutError: Error)
    | NotWritten(writeError: WriteError)

  /** Lays the file out and, if asked to and if anything is dirty, writes it over a buffer of fill bytes. What a
      default layout of less than four gigabytes writes can be read back. */
  method Update(elf: ElfFile, handle: Handle, command: Command, fill: byte) returns (r: Updated)
    requires |elf.phdrs| >= PN_XNUM ==> elf.sections != []
    requires BuffersSized(elf.State())
    modifies elf
    ensures r.NotAllowed? <==>
              || (command.WriteCommand? && (!handle.writable || handle.disabled))
              || !(command.WriteCommand? || command.NullCommand?) || !handle.hasEhdr || !handle.isElf
    ensures r.NotAllowed? ==>
              && elf.State() == old(elf.State())
              && r.reason == if command.WriteCommand? && !handle.writable then ReadOnly
                             else if command.WriteCommand? && handle.disabled then Disabled
                             else if !command.WriteCommand? && !command.NullCommand? then BadCommand
                             else if !handle.hasEhdr then NoHeader
                             else OtherKind
    ensures !r.NotAllowed? ==>
            var laid := Layout(old(elf.State()));
            match laid
            case Failed(e) => r == NotLaidOut(e)
            case Laid((g, len)) =>
              if command.NullCommand? || !Dirty(g) then r == Length(len, None) && elf.State() == g
              else
                match WriteFile(g)
                case Refused(e) => r == NotWritten(e) && elf.State() == g
                case Pieces(ps) =>
                  && Fits(ps, len) && elf.State() == Clean(g)
                  && r == Length(len, Some(PatchAll(seq(len, _ => fill), ps)))
    ensures r.Length? && r.image.Some? && !old(elf.callerLayout) && r.len < WORD ==>
              CookFile(r.image.value) == Cooked(Headers(elf.ehdr, ShdrsOf(elf.sections), elf.phdrs))
  {
    if command.WriteCommand? {
      if !handle.writable {
        return NotAllowed(ReadOnly);
      }
      if handle.disabled {
        return NotAllowed(Disabled);
      }
    } else if !command.NullCommand? {
      return NotAllowed(BadCommand);
    }
    if !handle.hasEhdr {
      return NotAllowed(NoHeader);
    }
    if !handle.isElf {
      return NotAllowed(OtherKind);
    }
    ghost var f := elf.State();
    var error, len, dirty := elf.Layout();
    if error.Some? {
      return NotLaidOut(error.value);
    }
    if !command.WriteCommand? || !dirty {
      return Length(len, None);
    }
    ghost var g := elf.State();
    LayoutIsRoomy(f);
    var outbuf := new byte[len](_ => fill);
    ghost var blank := outbuf[..];
    assert blank == seq(len, _ => fill);
    var refused := Write(elf, outbuf);
    if refused.Some? {
      return NotWritten(refused.value);
    }
    if !f.callerLayout && len < WORD {
      ReadsBack(f, g, len, blank, WriteFile(g).ps);
      CleanHeaders(g);
    }
    r := Length(len, Some(outbuf[..]));
  }
}
