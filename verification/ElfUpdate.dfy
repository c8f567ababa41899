/**
 An open ELF file and the layout that an update gives it.
 */
module ElfUpdate {
  import opened Basics
  import opened ElfTypes
  import opened ElfLayout

  predicate AnyDirty(ds: seq<Data>) {
    exists k :: 0 <= k < |ds| && ds[k].dirty
  }

  // ----- Loop steps -----

  function Prefixed<T>(done: seq<T>, r: Option<(seq<T>, nat)>): Option<(seq<T>, nat)> {
    match r
    case None => None
    case Some((ts, end)) => Some((done + ts, end))
  }

  lemma NothingDone<T>(r: Option<(seq<T>, nat)>)
    ensures Prefixed([], r) == r
  {
    if r.Some? {
      assert [] + r.value.0 == r.value.0;
    }
  }

  lemma PlaceStep(stype: Word, done: seq<Data>, ds: seq<Data>, len: nat, off: nat, next: nat)
    requires ds != [] && DataSize(stype, ds[0]).Some?
    requires off == AlignUp(len, ds[0].align) && next == off + DataSize(stype, ds[0]).value
    ensures Prefixed(done, PlaceData(stype, ds, len))
            == Prefixed(done + [Moved(ds[0], off)], PlaceData(stype, ds[1..], next))
  {
    var r := PlaceData(stype, ds[1..], next);
    if r.Some? {
      assert done + ([Moved(ds[0], off)] + r.value.0) == done + [Moved(ds[0], off)] + r.value.0;
    }
  }

  lemma OneMoved(done: seq<Data>, rest: seq<Data>, t: Data)
    requires rest != []
    ensures (done + rest)[|done| := t] == done + [t] + rest[1..]
    ensures AnyDirty(done + [t]) <==> AnyDirty(done) || t.dirty
  {
    if AnyDirty(done) {
      var k :| 0 <= k < |done| && done[k].dirty;
      assert (done + [t])[k].dirty;
    }
    if t.dirty {
      assert (done + [t])[|done|].dirty;
    }
  }

  lemma PlaceSectionStep(done: seq<Section>, ss: seq<Section>, i: nat, off: nat, t: Section, next: nat, i': nat)
    requires ss != [] && PlaceSection(ss[0], i, off) == Some((t, next)) && i' == i + 1
    ensures Prefixed(done, PlaceSections(ss, i, off)) == Prefixed(done + [t], PlaceSections(ss[1..], i', next))
  {
    var r := PlaceSections(ss[1..], i', next);
    if r.Some? {
      assert done + ([t] + r.value.0) == done + [t] + r.value.0;
    }
  }

  function PrefixedCheck(done: seq<Section>, r: Laid<(seq<Section>, nat)>): Laid<(seq<Section>, nat)> {
    match r
    case Failed(e) => Failed(e)
    case Laid((ts, end)) => Laid((done + ts, end))
  }

  lemma NoSectionChecked(r: Laid<(seq<Section>, nat)>)
    ensures PrefixedCheck([], r) == r
  {
    if r.Laid? {
      assert [] + r.value.0 == r.value.0;
    }
  }

  lemma CheckSectionStep(done: seq<Section>, ss: seq<Section>, i: nat, off: nat, allow: bool, t: Section, next: nat,
                         i': nat)
    requires i < |ss| && CheckSection(ss, i, off, allow) == Laid((t, next)) && i' == i + 1
    ensures PrefixedCheck(done, CheckSections(ss, i, off, allow))
            == PrefixedCheck(done + [t], CheckSections(ss, i', next, allow))
  {
    var r := CheckSections(ss, i', next, allow);
    if r.Laid? {
      assert done + ([t] + r.value.0) == done + [t] + r.value.0;
    }
  }

  lemma CheckEnds(done: seq<Section>, ss: seq<Section>, i: nat, off: nat, allow: bool)
    requires i <= |ss|
    ensures i == |ss| ==> PrefixedCheck(done, CheckSections(ss, i, off, allow)) == Laid((done, off))
    ensures i < |ss| && CheckSection(ss, i, off, allow).Failed? ==>
              PrefixedCheck(done, CheckSections(ss, i, off, allow)) == Failed(CheckSection(ss, i, off, allow).error)
  {
    assert done + [] == done;
  }

  /** Checking does not move a section. */
  lemma CheckedStays(ss: seq<Section>, i: nat, off: nat, allow: bool)
    requires i < |ss| && CheckSection(ss, i, off, allow).Laid?
    ensures SamePlace(ss[i], CheckSection(ss, i, off, allow).value.0)
  {
  }

  lemma CheckSame(ss: seq<Section>, ts: seq<Section>, i: nat, off: nat, allow: bool)
    requires SamePlaces(ss, ts) && i < |ss| && ts[i] == ss[i]
    ensures CheckSection(ss, i, off, allow) == CheckSection(ts, i, off, allow)
  {
    SameOverlaps(ss, ts, i);
  }

  predicate SomeDirty(ss: seq<Section>) {
    exists j :: 0 <= j < |ss| && SectionDirty(ss[j], j)
  }

  lemma OneSectionDone(done: seq<Section>, rest: seq<Section>, t: Section)
    requires rest != []
    ensures (done + rest)[|done| := t] == done + [t] + rest[1..]
    ensures SomeDirty(done + [t]) <==> SomeDirty(done) || SectionDirty(t, |done|)
  {
    if SomeDirty(done) {
      var j :| 0 <= j < |done| && SectionDirty(done[j], j);
      assert SectionDirty((done + [t])[j], j);
    }
    if SectionDirty(t, |done|) {
      assert SectionDirty((done + [t])[|done|], |done|);
    }
  }

  /** The place of a section in the file is as it was. */
  predicate SamePlace(s: Section, t: Section) {
    t.shdr.offset == s.shdr.offset && t.shdr.size == s.shdr.size && t.shdr.stype == s.shdr.stype
  }

  predicate SamePlaces(ss: seq<Section>, ts: seq<Section>) {
    |ts| == |ss| && forall j {:trigger ts[j]} :: 0 <= j < |ss| ==> SamePlace(ss[j], ts[j])
  }

  lemma SameOverlaps(ss: seq<Section>, ts: seq<Section>, i: nat)
    requires SamePlaces(ss, ts) && i < |ss|
    ensures OverlapsEarlier(ss, i) == OverlapsEarlier(ts, i)
  {
    forall j | 0 <= j < i
      ensures Overlap(ss[i].shdr, ss[j].shdr) == Overlap(ts[i].shdr, ts[j].shdr)
    {
      assert SamePlace(ss[i], ts[i]) && SamePlace(ss[j], ts[j]);
    }
  }

  /** The escape makes the file dirty through the first section header only. */
  lemma EscapedDirty(ss: seq<Section>, m: nat)
    ensures var ts := EscapeCount(ss, m);
            SomeDirty(ts) <==> SomeDirty(ss) || (ts != [] && ts[0].shdrDirty)
  {
    var ts := EscapeCount(ss, m);
    if ts != [] && ts[0].shdrDirty {
      assert SectionDirty(ts[0], 0);
    }
    if SomeDirty(ss) {
      var j :| 0 <= j < |ss| && SectionDirty(ss[j], j);
      assert SectionDirty(ts[j], j);
    }
    if SomeDirty(ts) && !ts[0].shdrDirty {
      var j :| 0 <= j < |ts| && SectionDirty(ts[j], j);
      assert SectionDirty(ss[j], j);
    }
  }

  // ----- The header, stage by stage -----

  function PhdrStage(f: File): Ehdr {
    f.ehdr.(
      ehsize := EHDR_SIZE, phoff := PhdrsAt(f), phnum := if |f.phdrs| >= PN_XNUM then PN_XNUM else |f.phdrs|,
      phentsize := if |f.phdrs| == 0 then 0 else PHDR_SIZE)
  }

  function ShdrStage(h: Ehdr, at: nat, m: nat): Ehdr {
    h.(shoff := ToWord(at), shnum := if m >= SHN_LORESERVE then 0 else m, shentsize := if m == 0 then 0 else SHDR_SIZE)
  }

  function IdentStage(h: Ehdr, encoding: byte): Ehdr {
    h.(ident := StampIdent(h.ident, encoding), version := EV_CURRENT)
  }

  lemma StagesStamp(f: File, at: nat, encoding: byte)
    ensures var h1 := PhdrStage(f);
            var h2 := ShdrStage(h1, at, |f.sections|);
            var h3 := IdentStage(h2, encoding);
            && h3 == Stamped(f, encoding, at)
            && (h3 != f.ehdr <==> h1 != f.ehdr || h2 != h1 || h3 != h2)
  {
  }

  class ElfFile {
    var ehdr: Ehdr
    var phdrs: seq<Phdr>
    var sections: seq<Section>
    var elfDirty: bool
    var ehdrDirty: bool
    var phdrDirty: bool
    var callerLayout: bool
    var allowOverlap: bool
    const native: nat

    constructor (f: File)
      ensures State() == f
    {
      ehdr, phdrs, sections, elfDirty, ehdrDirty := f.ehdr, f.phdrs, f.sections, f.elfDirty, f.ehdrDirty;
      phdrDirty, callerLayout, allowOverlap, native := f.phdrDirty, f.callerLayout, f.allowOverlap, f.native;
    }

    ghost function State(): File
      reads this
    {
      File(ehdr, phdrs, sections, elfDirty, ehdrDirty, phdrDirty, callerLayout, allowOverlap, native)
    }

    method RewriteEhdr(h: Ehdr, changed: bool)
      modifies this`ehdr, this`ehdrDirty
      ensures ehdr == h && ehdrDirty == (old(ehdrDirty) || changed)
    {
      ehdr, ehdrDirty := h, ehdrDirty || changed;
    }

    method RewriteShdr(i: nat, h: Shdr, changed: bool)
      requires i < |sections|
      modifies this`sections
      ensures var was := old(sections)[i];
              sections == old(sections)[i := was.(shdr := h, shdrDirty := was.shdrDirty || changed)]
    {
      sections := sections[i := sections[i].(shdr := h, shdrDirty := sections[i].shdrDirty || changed)];
    }

    /** Default layout of the buffers of section `i`. */
    method PlaceBuffers(i: nat) returns (len: Option<nat>, algn: nat, flag: bool)
      requires i < |sections|
      modifies this`sections
      ensures |sections| == |old(sections)|
      ensures var s := old(sections)[i];
              var placed := PlaceData(s.shdr.stype, s.data, 0);
              if placed.None? then len == None
              else
                && sections == old(sections)[i := s.(data := placed.value.0)]
                && len == Some(placed.value.1) && algn == MaxAlign(s.data, 1) && flag == AnyDirty(placed.value.0)
    {
      var stype, data, end, k := sections[i].shdr.stype, sections[i].data, 0, 0;
      ghost var done, rest := [], data;
      algn, flag := 1, false;
      NothingDone(PlaceData(stype, data, 0));
      while k < |data|
        invariant sections == old(sections)
        invariant 0 <= k <= |data| && k == |done| && data == done + rest
        invariant Prefixed(done, PlaceData(stype, rest, end)) == PlaceData(stype, sections[i].data, 0)
        invariant MaxAlign(rest, algn) == MaxAlign(sections[i].data, 1)
        invariant flag == AnyDirty(done)
      {
        var d := data[k];
        assert d == rest[0];
        var fsize := DataSize(stype, d);
        if fsize.None? {
          sections := sections[i := sections[i].(data := data)];
          return None, algn, flag;
        }
        var off := AlignUp(end, d.align);
        var next := off + fsize.value;
        PlaceStep(stype, done, rest, end, off, next);
        OneMoved(done, rest, Moved(d, off));
        algn := Max(algn, d.align);
        data := data[k := Moved(d, off)];
        flag := flag || data[k].dirty;
        done, rest := done + [Moved(d, off)], rest[1..];
        end, k := next, k + 1;
      }
      assert data == done;
      sections := sections[i := sections[i].(data := data)];
      len := Some(end);
    }

    /** Caller's layout: how far the buffers of section `i` reach. */
    method MeasureBuffers(i: nat) returns (len: Option<nat>, flag: bool)
      requires i < |sections|
      ensures len == DataEnd(sections[i].shdr.stype, sections[i].data, 0)
      ensures len.Some? ==> flag == AnyDirty(sections[i].data)
    {
      var stype, data, end: nat, k := sections[i].shdr.stype, sections[i].data, 0, 0;
      ghost var rest := data;
      flag := false;
      while k < |data|
        invariant 0 <= k <= |data| && rest == data[k..]
        invariant DataEnd(stype, rest, end) == DataEnd(stype, data, 0)
        invariant flag == AnyDirty(data[..k])
      {
        var fsize := DataSize(stype, data[k]);
        if fsize.None? {
          return None, flag;
        }
        end := Max(end, data[k].off + fsize.value);
        OneMoved(data[..k], data[k..], data[k]);
        assert data[..k + 1] == data[..k] + [data[k]];
        flag := flag || data[k].dirty;
        rest := rest[1..];
        k := k + 1;
      }
      assert data[..k] == data;
      len := Some(end);
    }

    /** Scans the sections before `i`. */
    method ScanEarlier(i: nat) returns (overlap: bool)
      requires i < |sections|
      ensures overlap == OverlapsEarlier(sections, i)
    {
      var j := 0;
      while j < i
        invariant 0 <= j <= i && forall m :: 0 <= m < j ==> !Overlap(sections[i].shdr, sections[m].shdr)
      {
        if Overlap(sections[i].shdr, sections[j].shdr) {
          return true;
        }
        j := j + 1;
      }
      overlap := false;
    }

    method FillEntSize(i: nat)
      requires i < |sections|
      modifies this`sections
      ensures var s := old(sections)[i];
              sections == old(sections)[i := s.(shdr := s.shdr.(entsize := EntSize(s.shdr)),
                                                shdrDirty := s.shdrDirty || EntSize(s.shdr) != s.shdr.entsize)]
    {
      var h := sections[i].shdr;
      if h.entsize == 0 {
        var t := SectionType(h.stype);
        var entsize := if t == TByte then 0 else FileSize(t);
        if entsize > 1 {
          RewriteShdr(i, h.(entsize := entsize), entsize != h.entsize);
        }
      }
    }

    method PlaceOne(i: nat, off: nat) returns (ok: bool, next: nat, flag: bool)
      requires i < |sections| && !callerLayout
      modifies this`sections
      ensures |sections| == |old(sections)|
      ensures ok == PlaceSection(old(sections)[i], i, off).Some?
      ensures ok ==> var (s, end) := PlaceSection(old(sections)[i], i, off).value;
                     sections == old(sections)[i := s] && next == end && flag == SectionDirty(s, i)
    {
      ok, next, flag := true, off, sections[i].scnDirty;
      var h := sections[i].shdr;
      if i == SHN_UNDEF {
        RewriteShdr(i, h.(entsize := 0), h.entsize != 0);
        RewriteShdr(i, sections[i].shdr.(offset := 0), h.offset != 0);
        RewriteShdr(i, sections[i].shdr.(size := 0), h.size != 0);
        RewriteShdr(i, sections[i].shdr.(addralign := 0), h.addralign != 0);
        flag := flag || sections[i].shdrDirty;
        return;
      }
      if h.stype == SHT_NULL {
        flag := flag || sections[i].shdrDirty;
        return;
      }
      var len, algn, changed := PlaceBuffers(i);
      if len.None? {
        ok := false;
        return;
      }
      FillEntSize(i);
      var at := AlignUp(off, algn);
      RewriteShdr(i, sections[i].shdr.(offset := ToWord(at)), at != h.offset);
      RewriteShdr(i, sections[i].shdr.(size := ToWord(len.value)), len.value != h.size);
      RewriteShdr(i, sections[i].shdr.(addralign := ToWord(algn)), algn != h.addralign);
      next := if h.stype == SHT_NOBITS then at else at + len.value;
      flag := flag || changed || sections[i].shdrDirty;
    }

    method CheckOne(i: nat, off: nat) returns (error: Option<Error>, next: nat, flag: bool)
      requires i < |sections| && callerLayout
      modifies this`sections
      ensures |sections| == |old(sections)|
      ensures var r := CheckSection(old(sections), i, off, allowOverlap);
              if r.Failed? then error == Some(r.error)
              else
                && error == None && sections == old(sections)[i := r.value.0] && next == r.value.1
                && flag == SectionDirty(r.value.0, i)
    {
      error, next, flag := None, off, sections[i].scnDirty;
      var h := sections[i].shdr;
      if i == SHN_UNDEF {
        RewriteShdr(i, h.(entsize := 0), h.entsize != 0);
        flag := flag || sections[i].shdrDirty;
        return;
      }
      if h.stype == SHT_NULL {
        flag := flag || sections[i].shdrDirty;
        return;
      }
      var len, changed := MeasureBuffers(i);
      if len.None? {
        error := Some(BadData);
        return;
      }
      FillEntSize(i);
      if len.value > h.size {
        error := Some(Scn2Small);
        return;
      }
      if !allowOverlap && h.offset < off {
        SameOverlaps(old(sections), sections, i);
        var overlap := ScanEarlier(i);
        if overlap {
          error := Some(ScnOverlap);
          return;
        }
      }
      next := Max(off, End(h));
      flag := flag || changed || sections[i].shdrDirty;
    }

    method PlaceAll(from: nat) returns (ok: bool, off: nat, flag: bool)
      requires !callerLayout
      modifies this`sections
      ensures ok == PlaceSections(old(sections), 0, from).Some?
      ensures |sections| == |old(sections)|
      ensures ok ==> PlaceSections(old(sections), 0, from) == Some((sections, off)) && flag == SomeDirty(sections)
    {
      ghost var done, rest := [], sections;
      var i := 0;
      ok, off, flag := true, from, false;
      NothingDone(PlaceSections(sections, 0, from));
      while i < |sections|
        invariant !callerLayout && 0 <= i <= |sections| == |old(sections)| && i == |done| && sections == done + rest
        invariant Prefixed(done, PlaceSections(rest, i, off)) == PlaceSections(old(sections), 0, from)
        invariant flag == SomeDirty(done)
        decreases |sections| - i
      {
        assert sections[i] == rest[0];
        var next, dirty;
        ok, next, dirty := PlaceOne(i, off);
        if !ok {
          return;
        }
        var t, i' := sections[i], i + 1;
        PlaceSectionStep(done, rest, i, off, t, next, i');
        OneSectionDone(done, rest, t);
        done, rest := done + [t], rest[1..];
        off, flag, i := next, flag || dirty, i';
      }
      assert sections == done;
    }

    method CheckAll(from: nat) returns (error: Option<Error>, off: nat, flag: bool)
      requires callerLayout
      modifies this`sections
      ensures |sections| == |old(sections)|
      ensures var r := CheckSections(old(sections), 0, from, allowOverlap);
              if r.Failed? then error == Some(r.error)
              else error == None && r == Laid((sections, off)) && flag == SomeDirty(sections)
    {
      ghost var done, ss := [], sections;
      var i := 0;
      error, off, flag := None, from, false;
      NoSectionChecked(CheckSections(ss, 0, from, allowOverlap));
      while i < |sections|
        invariant error == None && callerLayout && allowOverlap == old(allowOverlap) && |sections| == |ss|
        invariant 0 <= i <= |ss| && i == |done| && sections == done + ss[i..] && SamePlaces(ss, sections)
        invariant PrefixedCheck(done, CheckSections(ss, i, off, allowOverlap))
                  == CheckSections(ss, 0, from, allowOverlap)
        invariant flag == SomeDirty(done)
        decreases |sections| - i
      {
        CheckSame(ss, sections, i, off, allowOverlap);
        CheckEnds(done, ss, i, off, allowOverlap);
        var next, dirty;
        error, next, dirty := CheckOne(i, off);
        if error.Some? {
          return;
        }
        var t, i' := sections[i], i + 1;
        CheckedStays(ss, i, off, allowOverlap);
        CheckSectionStep(done, ss, i, off, allowOverlap, t, next, i');
        OneSectionDone(done, ss[i..], t);
        done := done + [t];
        off, flag, i := next, flag || dirty, i';
      }
      CheckEnds(done, ss, i, off, allowOverlap);
      assert sections == done;
    }

    method StampPhdrs() returns (off: nat)
      requires |phdrs| >= PN_XNUM ==> sections != []
      modifies this`ehdr, this`ehdrDirty, this`sections
      ensures off == AfterPhdrs(old(State())) && sections == Sections0(old(State()))
      ensures ehdr == PhdrStage(old(State()))
      ensures ehdrDirty == (old(ehdrDirty) || ehdr != old(ehdr))
    {
      RewriteEhdr(ehdr.(ehsize := EHDR_SIZE), ehdr.ehsize != EHDR_SIZE);
      off := EHDR_SIZE;
      var phnum, entsize := |phdrs|, 0;
      if phnum > 0 {
        entsize := PHDR_SIZE;
        if callerLayout {
          off := Max(off, ehdr.phoff + PhdrBytes(phnum));
        } else {
          off := AlignUp(off, ADDR_SIZE);
          RewriteEhdr(ehdr.(phoff := ToWord(off)), ehdr.phoff != off);
          off := off + PhdrBytes(phnum);
        }
      } else if !callerLayout {
        RewriteEhdr(ehdr.(phoff := 0), ehdr.phoff != 0);
      }
      if phnum >= PN_XNUM {
        RewriteShdr(0, sections[0].shdr.(info := ToWord(phnum)), sections[0].shdr.info != phnum);
        phnum := PN_XNUM;
      }
      RewriteEhdr(ehdr.(phnum := phnum), ehdr.phnum != phnum);
      RewriteEhdr(ehdr.(phentsize := entsize), ehdr.phentsize != entsize);
    }

    method StampShdrs(off: nat) returns (len: nat)
      modifies this`ehdr, this`ehdrDirty, this`sections
      ensures var at := HeadersAt(old(State()), off).0;
              && ehdr == ShdrStage(old(ehdr), at, |old(sections)|)
              && ehdrDirty == (old(ehdrDirty) || ehdr != old(ehdr) || at != ehdr.shoff)
      ensures len == HeadersAt(old(State()), off).1
      ensures sections == EscapeCount(old(sections), |old(sections)|)
    {
      len := off;
      var shnum, entsize := |sections|, 0;
      if shnum > 0 {
        entsize := SHDR_SIZE;
        if callerLayout {
          len := Max(off, ehdr.shoff + ShdrBytes(shnum));
        } else {
          var at := AlignUp(off, ADDR_SIZE);
          RewriteEhdr(ehdr.(shoff := ToWord(at)), ehdr.shoff != at);
          len := at + ShdrBytes(shnum);
        }
      } else if !callerLayout {
        RewriteEhdr(ehdr.(shoff := 0), ehdr.shoff != 0);
      }
      if shnum >= SHN_LORESERVE {
        RewriteShdr(0, sections[0].shdr.(size := ToWord(shnum)), sections[0].shdr.size != shnum);
        shnum := 0;
      }
      RewriteEhdr(ehdr.(shnum := shnum), ehdr.shnum != shnum);
      RewriteEhdr(ehdr.(shentsize := entsize), ehdr.shentsize != entsize);
    }

    method LayoutSections(off: nat) returns (error: Option<Error>, end: nat, flag: bool)
      modifies this`sections
      ensures |sections| == |old(sections)|
      ensures var r := SectionsLaid(old(sections), off, callerLayout, allowOverlap);
              if r.Failed? then error == Some(r.error)
              else error == None && r == Laid((sections, end)) && flag == SomeDirty(sections)
    {
      if callerLayout {
        error, end, flag := CheckAll(off);
      } else {
        var ok;
        ok, end, flag := PlaceAll(off);
        error := if ok then None else Some(BadData);
      }
    }

    method StampIdents(encoding: byte)
      modifies this`ehdr, this`ehdrDirty
      ensures ehdr == IdentStage(old(ehdr), encoding) && ehdrDirty == (old(ehdrDirty) || ehdr != old(ehdr))
    {
      RewriteEhdr(ehdr.(ident := StampIdent(ehdr.ident, encoding)), ehdr.ident != StampIdent(ehdr.ident, encoding));
      RewriteEhdr(ehdr.(version := EV_CURRENT), ehdr.version != EV_CURRENT);
    }

    method StampRest(off: nat, encoding: byte, ghost f: File) returns (len: nat)
      requires encoding == Encoding(f) && ValidEncoding(encoding) && |sections| == |f.sections|
      requires var dirty := f.ehdrDirty || PhdrStage(f) != f.ehdr;
               State() == f.(ehdr := PhdrStage(f), ehdrDirty := dirty, sections := sections)
      modifies this`ehdr, this`ehdrDirty, this`sections
      ensures State() == Finished(f, old(sections), HeadersAt(f, off).0) && len == HeadersAt(f, off).1
    {
      len := StampShdrs(off);
      StampIdents(encoding);
      StagesStamp(f, HeadersAt(f, off).0, encoding);
    }

    /** The layout of a file whose version and encoding are known. */
    method LayoutKnown(encoding: byte, ghost f: File) returns (error: Option<Error>, len: nat, flag: bool)
      requires f == State() && (|phdrs| >= PN_XNUM ==> sections != [])
      requires encoding == Encoding(f) && ValidEncoding(encoding)
      modifies this`ehdr, this`ehdrDirty, this`sections
      ensures var r := LaySections(f);
              if r.Failed? then error == Some(r.error)
              else
                && error == None && State() == Finished(f, r.value.0, HeadersAt(f, r.value.1).0)
                && len == HeadersAt(f, r.value.1).1 && flag == Dirty(State())
    {
      len, flag := 0, elfDirty || phdrDirty;
      var off := StampPhdrs();
      var end, dirty;
      error, end, dirty := LayoutSections(off);
      if error.None? {
        EscapedDirty(sections, |sections|);
        len := StampRest(end, encoding, f);
        flag := flag || dirty || ehdrDirty || (sections != [] && sections[0].shdrDirty);
      }
    }

    /** Lays the file out. After an error, headers and sections may have been changed in part. */
    method Layout() returns (error: Option<Error>, len: nat, flag: bool)
      requires |phdrs| >= PN_XNUM ==> sections != []
      modifies this
      ensures error.None? ==> ElfLayout.Layout(old(State())) == Laid((State(), len)) && flag == Dirty(State())
      ensures error.Some? ==> ElfLayout.Layout(old(State())) == Failed(error.value)
    {
      len, flag := 0, false;
      if ehdr.version != 0 && ehdr.version != EV_CURRENT {
        error := Some(UnknownVersion);
        return;
      }
      var encoding := if ehdr.ident[EI_DATA] == 0 then native else ehdr.ident[EI_DATA];
      if !ValidEncoding(encoding) {
        error := Some(UnknownEncoding);
        return;
      }
      error, len, flag := LayoutKnown(encoding, State());
    }
  }
}
