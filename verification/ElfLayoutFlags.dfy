/**
 What the layout reports, so that nothing is left unwritten that has changed, and where it stores the counts.
 */
module ElfLayoutFlags {
  import opened Basics
  import opened ElfTypes
  import opened ElfLayout

  predicate AllClean(ss: seq<Section>, index: nat) {
    forall i {:trigger ss[i]} :: 0 <= i < |ss| ==> !SectionDirty(ss[i], index + i)
  }

  lemma {:induction false} DataUnchanged(stype: Word, ds: seq<Data>, len: nat)
    requires PlaceData(stype, ds, len).Some?
    requires var r := PlaceData(stype, ds, len).value.0; forall k {:trigger r[k]} :: 0 <= k < |r| ==> !r[k].dirty
    ensures PlaceData(stype, ds, len).value.0 == ds
  {
    if ds != [] {
      var off := AlignUp(len, ds[0].align);
      var next := off + DataSize(stype, ds[0]).value;
      var r, rest := PlaceData(stype, ds, len).value.0, PlaceData(stype, ds[1..], next).value.0;
      assert r == [Moved(ds[0], off)] + rest;
      assert r[0] == Moved(ds[0], off) && forall k {:trigger rest[k]} :: 0 <= k < |rest| ==> rest[k] == r[k + 1];
      DataUnchanged(stype, ds[1..], next);
      assert ds == [ds[0]] + ds[1..];
    }
  }

  lemma SectionUnchanged(s: Section, index: nat, off: nat, t: Section, end: nat)
    requires PlaceSection(s, index, off) == Some((t, end)) && !SectionDirty(t, index)
    ensures t == s
  {
    if index != SHN_UNDEF && s.shdr.stype != SHT_NULL {
      DataUnchanged(s.shdr.stype, s.data, 0);
    }
  }

  lemma {:induction false} PlacedUnchanged(ss: seq<Section>, index: nat, off: nat)
    requires PlaceSections(ss, index, off).Some? && AllClean(PlaceSections(ss, index, off).value.0, index)
    ensures PlaceSections(ss, index, off).value.0 == ss
  {
    if ss != [] {
      var (t, next) := PlaceSection(ss[0], index, off).value;
      var r, rest := PlaceSections(ss, index, off).value.0, PlaceSections(ss[1..], index + 1, next).value.0;
      assert r == [t] + rest;
      assert r[0] == t && forall k {:trigger rest[k]} :: 0 <= k < |rest| ==> rest[k] == r[k + 1];
      SectionUnchanged(ss[0], index, off, t, next);
      PlacedUnchanged(ss[1..], index + 1, next);
      assert ss == [ss[0]] + ss[1..];
    }
  }

  lemma OneChecked(ss: seq<Section>, i: nat, off: nat, allow: bool, s: Section, next: nat)
    requires i < |ss| && CheckSection(ss, i, off, allow) == Laid((s, next)) && !SectionDirty(s, i)
    ensures s == ss[i]
  {
  }

  lemma CheckedParts(ss: seq<Section>, i: nat, off: nat, allow: bool, r: seq<Section>, end: nat)
    returns (s: Section, next: nat, rest: seq<Section>)
    requires i < |ss| && CheckSections(ss, i, off, allow) == Laid((r, end))
    ensures CheckSection(ss, i, off, allow) == Laid((s, next))
    ensures CheckSections(ss, i + 1, next, allow) == Laid((rest, end)) && r == [s] + rest
  {
    s, next := CheckSection(ss, i, off, allow).value.0, CheckSection(ss, i, off, allow).value.1;
    rest := CheckSections(ss, i + 1, next, allow).value.0;
  }

  lemma {:induction false} CheckedUnchanged(ss: seq<Section>, i: nat, off: nat, allow: bool, r: seq<Section>, end: nat)
    requires i <= |ss| && CheckSections(ss, i, off, allow) == Laid((r, end)) && AllClean(r, i)
    ensures r == ss[i..]
    decreases |ss| - i
  {
    if i < |ss| {
      var s, next, rest := CheckedParts(ss, i, off, allow, r, end);
      assert r[0] == s && forall k {:trigger rest[k]} :: 0 <= k < |rest| ==> rest[k] == r[k + 1];
      OneChecked(ss, i, off, allow, s, next);
      CheckedUnchanged(ss, i + 1, next, allow, rest, end);
      assert ss[i..] == [ss[i]] + ss[i + 1..];
    }
  }

  lemma LaidUnchanged(ss: seq<Section>, off: nat, callerLayout: bool, allow: bool, r: seq<Section>, end: nat)
    requires SectionsLaid(ss, off, callerLayout, allow) == Laid((r, end)) && AllClean(r, 0)
    ensures r == ss
  {
    if callerLayout {
      CheckedUnchanged(ss, 0, off, allow, r, end);
    } else {
      PlacedUnchanged(ss, 0, off);
    }
  }

  /** Storing a number in the header of the first section. */
  lemma FirstUnchanged(ss: seq<Section>, n: nat)
    requires ss != []
    ensures AllClean(SetInfo0(ss, n), 0) ==> SetInfo0(ss, n) == ss
    ensures AllClean(SetSize0(ss, n), 0) ==> SetSize0(ss, n) == ss
  {
    if AllClean(SetInfo0(ss, n), 0) {
      assert !SectionDirty(SetInfo0(ss, n)[0], 0);
    }
    if AllClean(SetSize0(ss, n), 0) {
      assert !SectionDirty(SetSize0(ss, n)[0], 0);
    }
  }

  /** If the layout reports nothing to write, nothing was dirty before, and no header, section or buffer has changed. */
  lemma NothingToWrite(f: File, g: File, len: nat)
    requires (|f.phdrs| >= PN_XNUM ==> f.sections != []) && Layout(f) == Laid((g, len)) && !Dirty(g)
    ensures g == f
    ensures !f.elfDirty && !f.ehdrDirty && !f.phdrDirty
    ensures forall i {:trigger f.sections[i]} :: 0 <= i < |f.sections| ==>
              !f.sections[i].scnDirty && !f.sections[i].shdrDirty
    ensures forall i, k {:trigger f.sections[i].data[k]} ::
              0 < i < |f.sections| && f.sections[i].shdr.stype != 0 && 0 <= k < |f.sections[i].data| ==>
              !f.sections[i].data[k].dirty
  {
    var ss, off := LaySections(f).value.0, LaySections(f).value.1;
    assert AllClean(g.sections, 0);
    if |f.sections| >= SHN_LORESERVE && ss != [] {
      FirstUnchanged(ss, |f.sections|);
    }
    assert g.sections == ss;
    LaidUnchanged(Sections0(f), AfterPhdrs(f), f.callerLayout, f.allowOverlap, ss, off);
    if |f.phdrs| >= PN_XNUM {
      FirstUnchanged(f.sections, |f.phdrs|);
    }
  }

  // ----- Counts -----

  lemma FirstSectionKept(ss: seq<Section>, off: nat, callerLayout: bool, allow: bool, r: seq<Section>, end: nat)
    requires SectionsLaid(ss, off, callerLayout, allow) == Laid((r, end)) && ss != []
    ensures r != [] && r[0].shdr.info == ss[0].shdr.info
  {
    if callerLayout {
      var s, next, rest := CheckedParts(ss, 0, off, allow, r, end);
    } else {
      assert r[0] == PlaceSection(ss[0], 0, off).value.0;
    }
  }

  /** Counts that do not fit are in the first section header: the number of sections in its size, the number of program
      headers in its info. */
  lemma CountsStored(f: File, g: File, len: nat)
    requires (|f.phdrs| >= PN_XNUM ==> f.sections != []) && Layout(f) == Laid((g, len))
    ensures g.ehdr.shnum == (if |f.sections| >= 0xff00 then 0 else |f.sections|)
    ensures g.ehdr.phnum == (if |f.phdrs| >= 0xffff then 0xffff else |f.phdrs|)
    ensures 0xff00 <= |f.sections| < WORD && g.sections != [] ==> g.sections[0].shdr.size == |f.sections|
    ensures 0xffff <= |f.phdrs| < WORD ==> g.sections != [] && g.sections[0].shdr.info == |f.phdrs|
  {
    var ss, off := LaySections(f).value.0, LaySections(f).value.1;
    if |f.phdrs| >= PN_XNUM {
      FirstSectionKept(Sections0(f), AfterPhdrs(f), f.callerLayout, f.allowOverlap, ss, off);
    }
  }
}
