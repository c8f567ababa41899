/**
 Laying out a file a second time, and the overlap check of a caller's own layout.
 */
module ElfLayoutAgain {
  import opened Basics
  import opened ElfTypes
  import opened ElfLayout
  import opened ElfLayoutLaws

  // ----- Second default layout -----

  function CleanData(ds: seq<Data>): (r: seq<Data>)
    ensures |r| == |ds|
  {
    seq(|ds|, k requires 0 <= k < |ds| => ds[k].(dirty := false))
  }

  function CleanSection(s: Section): Section {
    s.(data := CleanData(s.data), scnDirty := false, shdrDirty := false)
  }

  function CleanSections(ss: seq<Section>): (r: seq<Section>)
    ensures |r| == |ss|
  {
    seq(|ss|, i requires 0 <= i < |ss| => CleanSection(ss[i]))
  }

  /** What a write leaves behind: the same file with no dirty flag. */
  function Clean(f: File): File {
    f.(sections := CleanSections(f.sections), elfDirty := false, ehdrDirty := false, phdrDirty := false)
  }

  lemma {:induction false} PlaceDataAgain(stype: Word, ds: seq<Data>, len: nat)
    requires PlaceData(stype, ds, len).Some?
    ensures var (ts, end) := PlaceData(stype, ds, len).value;
            PlaceData(stype, CleanData(ts), len) == Some((CleanData(ts), end))
  {
    if ds != [] {
      var off := AlignUp(len, ds[0].align);
      var next := off + DataSize(stype, ds[0]).value;
      var (rest, end) := PlaceData(stype, ds[1..], next).value;
      PlaceDataAgain(stype, ds[1..], next);
      FirstDataAgain(stype, ds[0], CleanData(rest), len, off, next, end);
      CleanDataCons(Moved(ds[0], off), rest);
    } else {
      assert CleanData([]) == [];
    }
  }

  lemma CleanDataCons(d: Data, ds: seq<Data>)
    ensures CleanData([d] + ds) == [d.(dirty := false)] + CleanData(ds)
  {
  }

  lemma FirstDataAgain(stype: Word, d: Data, rest: seq<Data>, len: nat, off: nat, next: nat, end: nat)
    requires DataSize(stype, d).Some? && off == AlignUp(len, d.align) && next == off + DataSize(stype, d).value
    requires PlaceData(stype, rest, next) == Some((rest, end))
    ensures var all := [Moved(d, off).(dirty := false)] + rest;
            PlaceData(stype, all, len) == Some((all, end))
  {
    var first := Moved(d, off).(dirty := false);
    assert ([first] + rest)[1..] == rest && Moved(first, off) == first;
  }

  lemma {:induction false} MaxAlignSame(ds: seq<Data>, ts: seq<Data>, a: nat)
    requires |ds| == |ts| && forall k :: 0 <= k < |ds| ==> ts[k].align == ds[k].align
    ensures MaxAlign(ts, a) == MaxAlign(ds, a)
  {
    if ds != [] {
      MaxAlignSame(ds[1..], ts[1..], Max(a, ds[0].align));
    }
  }

  lemma {:induction false} MaxAlignBound(ds: seq<Data>, a: nat, v: nat)
    requires a <= 1
    ensures v > 0 ==> MaxAlign(ds, a) <= Max(1, AlignUp(v, MaxAlign(ds, a)))
  {
    AlignedUp(v, MaxAlign(ds, a));
  }

  /** The section is too long for its 32-bit size field. */
  predicate TooLong(s: Section, index: nat) {
    Live(s, index) && LengthOf(s) >= WORD
  }

  /** No section from `index` on is too long for its size field. */
  predicate LengthsFit(ss: seq<Section>, index: nat) {
    ss == [] || (!TooLong(ss[0], index) && LengthsFit(ss[1..], index + 1))
  }

  /** The size field of a section that is too long never has the section's length. */
  function Marked(s: Section, index: nat): Section {
    s.(shdrDirty := s.shdrDirty || TooLong(s, index))
  }

  function MarkLong(ss: seq<Section>, index: nat): (r: seq<Section>)
    ensures |r| == |ss|
  {
    if ss == [] then [] else [Marked(ss[0], index)] + MarkLong(ss[1..], index + 1)
  }

  /** The fields of a live section are at the values that placing it gives. */
  predicate Settled(t: Section, off: nat, len: nat) {
    && PlaceData(t.shdr.stype, t.data, 0) == Some((t.data, len)) && !t.shdrDirty
    && t.shdr.size == ToWord(len) && t.shdr.addralign == MaxAlign(t.data, 1)
    && t.shdr.offset == AlignUp(off, t.shdr.addralign) && EntSize(t.shdr) == t.shdr.entsize
  }

  lemma PlaceSettled(t: Section, index: nat, off: nat, len: nat)
    requires Live(t, index) && Settled(t, off, len)
    ensures PlaceSection(t, index, off)
            == Some((Marked(t, index), if t.shdr.stype == SHT_NOBITS then t.shdr.offset else t.shdr.offset + len))
  {
  }

  lemma PlacedFields(s: Section, index: nat, off: nat)
    requires Live(s, index) && PlaceSection(s, index, off).Some? && PlaceSection(s, index, off).value.1 < WORD
    requires MaxAlign(s.data, 1) < WORD
    ensures PlaceData(s.shdr.stype, s.data, 0).Some?
    ensures var t, end := PlaceSection(s, index, off).value.0, PlaceSection(s, index, off).value.1;
            var al := MaxAlign(s.data, 1);
            && t.data == PlaceDataOf(s) && t.shdr.stype == s.shdr.stype && t.shdr.entsize == EntSize(s.shdr)
            && t.shdr.size == ToWord(LengthOf(s)) && t.shdr.addralign == al && t.shdr.offset == AlignUp(off, al)
            && end == if t.shdr.stype == SHT_NOBITS then t.shdr.offset else t.shdr.offset + LengthOf(s)
  {
  }

  lemma AlignFits(s: Section, index: nat, off: nat)
    requires Live(s, index) && off > 0 && PlaceSection(s, index, off).Some?
             && PlaceSection(s, index, off).value.1 < WORD
    ensures MaxAlign(s.data, 1) < WORD
  {
    MaxAlignBound(s.data, 1, off);
  }

  lemma EntSizeTwice(h: Shdr, g: Shdr)
    requires g.stype == h.stype && g.entsize == EntSize(h)
    ensures EntSize(g) == g.entsize
  {
  }

  lemma PlaceLiveAgain(s: Section, index: nat, off: nat)
    requires Live(s, index) && off > 0 && PlaceSection(s, index, off).Some?
             && PlaceSection(s, index, off).value.1 < WORD
    ensures PlaceData(s.shdr.stype, s.data, 0).Some?
    ensures var t := CleanSection(PlaceSection(s, index, off).value.0);
            Live(t, index) && Settled(t, off, LengthOf(s))
  {
    AlignFits(s, index, off);
    PlacedFields(s, index, off);
    var t := PlaceSection(s, index, off).value.0;
    PlaceDataAgain(s.shdr.stype, s.data, 0);
    PlacedInOrder(s.shdr.stype, s.data, 0);
    MaxAlignSame(s.data, CleanData(t.data), 1);
    EntSizeTwice(s.shdr, t.shdr);
  }

  lemma PlaceSectionAgain(s: Section, index: nat, off: nat)
    requires PlaceSection(s, index, off).Some? && off > 0 && PlaceSection(s, index, off).value.1 < WORD
    ensures var (t, end) := PlaceSection(s, index, off).value;
            && PlaceSection(CleanSection(t), index, off) == Some((Marked(CleanSection(t), index), end))
            && (TooLong(CleanSection(t), index) <==> TooLong(s, index))
  {
    if Live(s, index) {
      PlaceLiveAgain(s, index, off);
      AlignFits(s, index, off);
      PlacedFields(s, index, off);
      PlaceSettled(CleanSection(PlaceSection(s, index, off).value.0), index, off, LengthOf(s));
    }
  }

  lemma PlaceCons(s: Section, ss: seq<Section>, index: nat, off: nat)
    requires PlaceSection(s, index, off).Some?
             && PlaceSections(ss, index + 1, PlaceSection(s, index, off).value.1).Some?
    ensures var (t, next) := PlaceSection(s, index, off).value;
            var (ts, end) := PlaceSections(ss, index + 1, next).value;
            PlaceSections([s] + ss, index, off) == Some(([t] + ts, end))
  {
    assert ([s] + ss)[1..] == ss;
  }

  lemma CleanCons(t: Section, ts: seq<Section>)
    ensures CleanSections([t] + ts) == [CleanSection(t)] + CleanSections(ts)
  {
  }

  lemma MarkCons(s: Section, ss: seq<Section>, index: nat)
    ensures MarkLong([s] + ss, index) == [Marked(s, index)] + MarkLong(ss, index + 1)
    ensures LengthsFit([s] + ss, index) <==> !TooLong(s, index) && LengthsFit(ss, index + 1)
  {
    assert ([s] + ss)[1..] == ss;
  }

  lemma {:induction false} PlaceSectionsAgain(ss: seq<Section>, index: nat, off: nat)
    requires PlaceSections(ss, index, off).Some? && off > 0 && PlaceSections(ss, index, off).value.1 < WORD
    ensures var (ts, end) := PlaceSections(ss, index, off).value;
            && PlaceSections(CleanSections(ts), index, off) == Some((MarkLong(CleanSections(ts), index), end))
            && (LengthsFit(CleanSections(ts), index) <==> LengthsFit(ss, index))
  {
    if ss == [] {
      assert CleanSections([]) == [] && MarkLong([], index) == [];
    } else {
      var (t, next) := PlaceSection(ss[0], index, off).value;
      PlacedSection(ss[0], index, off);
      PlacedSections(ss[1..], index + 1, next);
      PlaceSectionAgain(ss[0], index, off);
      PlaceSectionsAgain(ss[1..], index + 1, next);
      var (rest, end) := PlaceSections(ss[1..], index + 1, next).value;
      CleanCons(t, rest);
      PlaceCons(CleanSection(t), CleanSections(rest), index, off);
      MarkCons(CleanSection(t), CleanSections(rest), index);
      MarkCons(ss[0], ss[1..], index);
      assert ss == [ss[0]] + ss[1..];
    }
  }

  /** The headers that a second layout finds are the ones it would write. */
  lemma StampedAgain(f: File)
    requires Defaulted(f)
    ensures var (g, end) := Layout(f).value;
            && Encoding(Clean(g)) == Encoding(f) && g.ehdr.version == EV_CURRENT
            && Stamped(Clean(g), Encoding(f), g.ehdr.shoff) == g.ehdr
  {
    var g := Layout(f).value.0;
    DefaultParts(f);
    var id := g.ehdr.ident;
    assert StampIdent(id, Encoding(f)) == id;
  }

  function MarkFirst(ss: seq<Section>): seq<Section>
    requires ss != []
  {
    [ss[0].(shdrDirty := true)] + ss[1..]
  }

  lemma CleanEscaped(ts: seq<Section>, n: nat)
    requires ts != []
    ensures var cs, clean := CleanSections(SetSize0(ts, n)), CleanSections(ts);
            cs == [clean[0].(shdr := clean[0].shdr.(size := ToWord(n)))] + clean[1..]
  {
  }

  /** The sections of a second layout, once the count escape has been put in. */
  lemma PlacedAgain(base: seq<Section>, after: nat)
    requires PlaceSections(base, 0, after).Some? && after > 0 && PlaceSections(base, 0, after).value.1 < WORD
    requires SHN_LORESERVE <= |base| < WORD
    ensures var (ts, off) := PlaceSections(base, 0, after).value;
            && ts != []
            && var marked := MarkLong(CleanSections(ts), 0);
               PlaceSections(CleanSections(SetSize0(ts, |base|)), 0, after) == Some((MarkFirst(marked), off))
  {
    PlaceSectionsAgain(base, 0, after);
    PlacedSections(base, 0, after);
    var (ts, off) := PlaceSections(base, 0, after).value;
    CleanEscaped(ts, |base|);
    CountCleared(CleanSections(ts), MarkLong(CleanSections(ts), 0), after, off, |base|);
  }

  lemma CountCleared(ss: seq<Section>, ts: seq<Section>, after: nat, off: nat, n: nat)
    requires ss != [] && |ts| == |ss| && PlaceSections(ss, 0, after) == Some((ts, off)) && ts[0] == ss[0]
    requires 0 < n < WORD
    ensures var first := ss[0].(shdr := ss[0].shdr.(size := ToWord(n)));
            PlaceSections([first] + ss[1..], 0, after) == Some((MarkFirst(ts), off))
  {
    var first := ss[0].(shdr := ss[0].shdr.(size := ToWord(n)));
    PlaceSettledParts(ss, ts, after, off);
    FirstAgain(ss[0], after, n);
    PlaceCons(first, ss[1..], 0, after);
  }

  lemma PlaceSettledParts(ss: seq<Section>, ts: seq<Section>, after: nat, off: nat)
    requires ss != [] && |ts| == |ss| && PlaceSections(ss, 0, after) == Some((ts, off)) && ts[0] == ss[0]
    ensures PlaceSection(ss[0], 0, after) == Some((ss[0], after))
            && PlaceSections(ss[1..], 1, after) == Some((ts[1..], off))
  {
    var (t, next) := PlaceSection(ss[0], 0, after).value;
    var (rest, end) := PlaceSections(ss[1..], 1, next).value;
    assert ts[0] == ([t] + rest)[0] && ts[1..] == ([t] + rest)[1..] == rest;
  }

  /** Placing the null section clears the count that the escape put there. */
  lemma FirstAgain(s: Section, after: nat, n: nat)
    requires PlaceSection(s, 0, after) == Some((s, after)) && 0 < n < WORD
    ensures PlaceSection(s.(shdr := s.shdr.(size := ToWord(n))), 0, after) == Some((s.(shdrDirty := true), after))
  {
  }

  lemma EscapeMarks(ts: seq<Section>, n: nat)
    requires ts != [] && 0 < n < WORD
    ensures SetSize0(MarkFirst(MarkLong(CleanSections(ts), 0)), n)
            == MarkFirst(MarkLong(CleanSections(SetSize0(ts, n)), 0))
    ensures LengthsFit(CleanSections(SetSize0(ts, n)), 0) <==> LengthsFit(CleanSections(ts), 0)
  {
    CleanEscaped(ts, n);
    CountMarks(CleanSections(ts), CleanSections(SetSize0(ts, n)), n);
  }

  /** The count in the first header does not matter to the marks. */
  lemma CountMarks(clean: seq<Section>, cs: seq<Section>, n: nat)
    requires clean != [] && 0 < n < WORD
    requires cs == [clean[0].(shdr := clean[0].shdr.(size := ToWord(n)))] + clean[1..]
    ensures SetSize0(MarkFirst(MarkLong(clean, 0)), n) == MarkFirst(MarkLong(cs, 0))
    ensures LengthsFit(cs, 0) <==> LengthsFit(clean, 0)
  {
    var rest := MarkLong(clean[1..], 1);
    MarkCons(cs[0], clean[1..], 0);
    MarkCons(clean[0], clean[1..], 0);
    assert clean == [clean[0]] + clean[1..];
    FirstSized(clean[0], rest, n);
  }

  lemma FirstSized(s: Section, rest: seq<Section>, n: nat)
    requires 0 < n < WORD
    ensures SetSize0(MarkFirst([Marked(s, 0)] + rest), n)
         == MarkFirst([Marked(s.(shdr := s.shdr.(size := ToWord(n))), 0)] + rest)
  {
  }

  lemma FirstPlaced(base: seq<Section>, after: nat)
    requires base != [] && PlaceSections(base, 0, after).Some?
    ensures var ts := PlaceSections(base, 0, after).value.0;
            ts != [] && ts[0].shdr.info == base[0].shdr.info
  {
  }

  lemma Sections0Again(f: File)
    requires Defaulted(f)
    ensures var c := Clean(Layout(f).value.0);
            (|c.phdrs| >= PN_XNUM ==> c.sections != []) && |c.sections| == |f.sections| && Sections0(c) == c.sections
            && AfterPhdrs(c) == AfterPhdrs(f)
  {
    var g := Layout(f).value.0;
    DefaultParts(f);
    LayoutIsFinished(f);
    if |f.phdrs| >= PN_XNUM {
      FirstPlaced(Sections0(f), AfterPhdrs(f));
      assert g.sections[0].shdr.info == |f.phdrs|;
    }
  }

  lemma SameLengths(f: File)
    requires |f.phdrs| >= PN_XNUM ==> f.sections != []
    ensures LengthsFit(Sections0(f), 0) <==> LengthsFit(f.sections, 0)
  {
    var ss, base := f.sections, Sections0(f);
    Sections0Same(f);
    if ss != [] {
      MarkCons(ss[0], ss[1..], 0);
      MarkCons(base[0], base[1..], 0);
      assert ss[1..] == base[1..] && ss == [ss[0]] + ss[1..] && base == [base[0]] + base[1..];
    }
  }

  lemma SectionsAgain(f: File)
    requires Defaulted(f)
    ensures var c := Clean(Layout(f).value.0);
            && |c.sections| == |f.sections| && (|c.phdrs| >= PN_XNUM ==> c.sections != [])
            && LaySections(c).Laid? && LaySections(c).value.1 == LaySections(f).value.1
            && (LengthsFit(c.sections, 0) <==> LengthsFit(f.sections, 0))
            && var again := LaySections(c).value.0;
               if |f.sections| < SHN_LORESERVE then again == MarkLong(c.sections, 0)
               else again != [] && SetSize0(again, |f.sections|) == MarkFirst(MarkLong(c.sections, 0))
  {
    var base, after, m := Sections0(f), AfterPhdrs(f), |f.sections|;
    Sections0Same(f);
    SameLengths(f);
    PlaceSectionsAgain(base, 0, after);
    DefaultParts(f);
    LayoutIsFinished(f);
    Sections0Again(f);
    if m >= SHN_LORESERVE {
      PlacedAgain(base, after);
      EscapeMarks(PlaceSections(base, 0, after).value.0, m);
    }
  }

  lemma SameHeadersAt(f: File, c: File, off: nat)
    requires !f.callerLayout && !c.callerLayout && |c.sections| == |f.sections|
    ensures HeadersAt(c, off) == HeadersAt(f, off)
  {
  }

  lemma ShoffAgain(f: File)
    requires Defaulted(f)
    ensures var (g, end) := Layout(f).value;
            !g.callerLayout && |g.sections| == |f.sections|
                && HeadersAt(f, LaySections(f).value.1) == (g.ehdr.shoff, end)
  {
    DefaultParts(f);
    LayoutIsFinished(f);
    HeadersAtEnd(f, LaySections(f).value.1);
  }

  /** A file whose header and section headers already have the values of its layout. */
  lemma LaidFrom(c: File, off: nat, end: nat)
    requires |c.phdrs| >= PN_XNUM ==> c.sections != []
    requires c.ehdr.version == EV_CURRENT && ValidEncoding(Encoding(c)) && LaySections(c).Laid?
             && LaySections(c).value.1 == off
    requires HeadersAt(c, off) == (c.ehdr.shoff, end)
    requires !c.ehdrDirty && Stamped(c, Encoding(c), c.ehdr.shoff) == c.ehdr
    ensures Layout(c) == Laid((c.(sections := EscapeCount(LaySections(c).value.0, |c.sections|)), end))
  {
  }

  /** The file after the second layout. */
  function Escaped(c: File): File {
    var marked := MarkLong(c.sections, 0);
    c.(sections := if |c.sections| < SHN_LORESERVE then marked else MarkFirst(marked))
  }

  ghost predicate NoHeaderDirty(ss: seq<Section>) {
    forall i {:trigger ss[i]} :: 0 <= i < |ss| ==> !ss[i].shdrDirty
  }

  lemma NoneDirtyCons(s: Section, ss: seq<Section>)
    ensures NoHeaderDirty([s] + ss) <==> !s.shdrDirty && NoHeaderDirty(ss)
  {
    var all := [s] + ss;
    assert all[0] == s && forall i :: 0 <= i < |ss| ==> all[i + 1] == ss[i];
  }

  lemma {:induction false} MarkedIfTooLong(ss: seq<Section>, index: nat)
    requires NoHeaderDirty(ss)
    ensures NoHeaderDirty(MarkLong(ss, index)) <==> LengthsFit(ss, index)
  {
    if ss != [] {
      assert ss == [ss[0]] + ss[1..];
      NoneDirtyCons(ss[0], ss[1..]);
      MarkedIfTooLong(ss[1..], index + 1);
      NoneDirtyCons(Marked(ss[0], index), MarkLong(ss[1..], index + 1));
    }
  }

  lemma {:induction false} MarkedAt(ss: seq<Section>, index: nat, i: nat)
    requires i < |ss|
    ensures MarkLong(ss, index)[i] == Marked(ss[i], index + i)
  {
    if i > 0 {
      MarkedAt(ss[1..], index + 1, i - 1);
    }
  }

  lemma DirtyIfMarked(c: File, i: nat)
    requires i < |c.sections| && c.sections[i] == CleanSection(c.sections[i])
    ensures SectionDirty(MarkLong(c.sections, 0)[i], i) <==> MarkLong(c.sections, 0)[i].shdrDirty
  {
    MarkedAt(c.sections, 0, i);
  }

  lemma DirtyAgain(f: File)
    ensures var c := Clean(f);
            Dirty(Escaped(c)) <==> |c.sections| >= SHN_LORESERVE || !LengthsFit(c.sections, 0)
  {
    var c := Clean(f);
    var again, marked := Escaped(c), MarkLong(c.sections, 0);
    MarkedIfTooLong(c.sections, 0);
    forall i | 0 <= i < |marked|
      ensures SectionDirty(marked[i], i) <==> marked[i].shdrDirty
    {
      assert c.sections[i] == CleanSection(c.sections[i]);
      DirtyIfMarked(c, i);
    }
    if |c.sections| >= SHN_LORESERVE {
      assert SectionDirty(again.sections[0], 0);
    }
  }

  /** Laying out again what was laid out and written changes no field and gives the same length. It
      reports nothing to write exactly when the section count needs no escape and no section is too long
      for its size field. */
  lemma SecondLayout(f: File)
    requires Defaulted(f)
    ensures var (g, end) := Layout(f).value;
            && (|g.phdrs| >= PN_XNUM ==> g.sections != [])
            && Layout(Clean(g)) == Laid((Escaped(Clean(g)), end))
            && (Dirty(Escaped(Clean(g))) <==> |f.sections| >= SHN_LORESERVE || !LengthsFit(f.sections, 0))
  {
    var g, end := Layout(f).value.0, Layout(f).value.1;
    var c, off := Clean(g), LaySections(f).value.1;
    ShoffAgain(f);
    SameHeadersAt(f, c, off);
    SectionsAgain(f);
    StampedAgain(f);
    LaidFrom(c, off, end);
    DirtyAgain(g);
  }

  const NULL_SECTION := Section(ZERO_SHDR, [], false, false)

  function BlankEhdr(): Ehdr {
    Ehdr(seq(16, _ => 0), 0, 0, 0, 0, 0, 0, 0, 0, 0, 0, 0, 0, 0)
  }

  function Nulls(n: nat): (ss: seq<Section>)
    ensures |ss| == n
  {
    seq(n, _ => NULL_SECTION)
  }

  lemma {:induction false} NullsStay(n: nat, index: nat, off: nat)
    ensures PlaceSections(Nulls(n), index, off) == Some((Nulls(n), off))
    decreases n
  {
    if n > 0 {
      NullsStay(n - 1, index + 1, off);
      assert Nulls(n)[1..] == Nulls(n - 1) && Nulls(n) == [NULL_SECTION] + Nulls(n - 1);
    }
  }

  /** A file of so many empty sections that their count needs the escape. */
  function ManyNulls(): File {
    File(BlankEhdr(), [], Nulls(SHN_LORESERVE), false, false, false, false, false, ELFDATA2LSB)
  }

  lemma ManyNullsLaid()
    ensures Defaulted(ManyNulls())
  {
    NullsStay(SHN_LORESERVE, 0, EHDR_SIZE);
  }

  /** A file of so many sections is written again although nothing has changed since it was laid out and written. */
  lemma WrittenAgain(f: File, g: File)
    requires Defaulted(f) && |f.sections| >= SHN_LORESERVE && g == Clean(Layout(f).value.0)
    ensures (|g.phdrs| >= PN_XNUM ==> g.sections != []) && Layout(g).Laid? && Dirty(Layout(g).value.0) && !Dirty(g)
  {
    SecondLayout(f);
  }

  /** So is this one. */
  lemma ManyNullsWrittenAgain(f: File)
    requires f == ManyNulls()
    ensures Defaulted(f)
    ensures var g := Clean(Layout(f).value.0);
            && (|g.phdrs| >= PN_XNUM ==> g.sections != []) && Layout(g).Laid?
            && Dirty(Layout(g).value.0) && !Dirty(g)
  {
    ManyNullsLaid();
    WrittenAgain(f, Clean(Layout(f).value.0));
  }

  /** A section without bytes in the file may be too long for its size field. */
  function LongBss(): Section {
    Section(ZERO_SHDR.(stype := SHT_NOBITS), [Data(None, TByte, WORD, 0, 1, EV_CURRENT, false)], false, false)
  }

  /** A file with such a section is written again too, however few sections it has. */
  lemma LongBssWrittenAgain(f: File)
    requires f == File(BlankEhdr(), [], [NULL_SECTION, LongBss()], false, false, false, false, false, ELFDATA2LSB)
    ensures Defaulted(f) && !LengthsFit(f.sections, 0)
    ensures var g := Clean(Layout(f).value.0); Layout(g).Laid? && Dirty(Layout(g).value.0) && !Dirty(g)
  {
    var s, rest := LongBss(), [LongBss()];
    assert f.sections[1..] == rest && rest[1..] == [] && s.data[1..] == [];
    assert PlaceData(SHT_NOBITS, s.data, 0).Some? && LengthOf(s) == WORD && TooLong(s, 1);
    assert PlaceSection(s, 1, EHDR_SIZE).Some? && PlaceSection(s, 1, EHDR_SIZE).value.1 == EHDR_SIZE;
    assert PlaceSections(rest, 1, EHDR_SIZE).Some? && PlaceSections(rest, 1, EHDR_SIZE).value.1 == EHDR_SIZE;
    assert PlaceSection(NULL_SECTION, 0, EHDR_SIZE).Some?;
    assert !LengthsFit(rest, 1);
    SecondLayout(f);
  }

  // ----- Caller's layout -----

  predicate Ready(s: Section) {
    var end := DataEnd(s.shdr.stype, s.data, 0);
    end.Some? && end.value <= s.shdr.size
  }

  ghost predicate NoOverlaps(ss: seq<Section>, i: nat) {
    forall j, k :: 0 <= j < k < i <= |ss| && Live(ss[j], j) && Live(ss[k], k) ==> !Overlap(ss[k].shdr, ss[j].shdr)
  }

  ghost predicate EndsBy(ss: seq<Section>, i: nat, off: nat) {
    forall j :: 0 <= j < i <= |ss| && Live(ss[j], j) ==> End(ss[j].shdr) <= off
  }

  /** A caller's layout that is accepted has no overlap, although sections that start behind the end
      of all earlier ones are not compared with them. */
  lemma {:induction false} AcceptedHasNoOverlap(ss: seq<Section>, i: nat, off: nat)
    requires i <= |ss| && EndsBy(ss, i, off) && NoOverlaps(ss, i)
    requires CheckSections(ss, i, off, false).Laid?
    ensures NoOverlaps(ss, |ss|) && EndsBy(ss, |ss|, CheckSections(ss, i, off, false).value.1)
    decreases |ss| - i
  {
    if i < |ss| {
      var (s, next) := CheckSection(ss, i, off, false).value;
      AcceptedHasNoOverlap(ss, i + 1, next);
    }
  }

  /** Where the check of section `i` takes the file to end so far, `start` being the end of the headers. */
  function Reach(ss: seq<Section>, i: nat, start: nat): nat
    requires i <= |ss|
  {
    if i == 0 then start
    else if Live(ss[i - 1], i - 1) then Max(Reach(ss, i - 1, start), End(ss[i - 1].shdr))
    else Reach(ss, i - 1, start)
  }

  /** Section `k` starts before the end of what came before it, and meets what the header of an earlier null section
      says, such as the count that the first one may hold. */
  ghost predicate MeetsNull(ss: seq<Section>, k: nat, start: nat)
    requires k < |ss|
  {
    && Live(ss[k], k) && ss[k].shdr.offset < Reach(ss, k, start)
    && exists j {:trigger ss[j]} :: 0 <= j < k && !Live(ss[j], j) && Overlap(ss[k].shdr, ss[j].shdr)
  }

  ghost predicate MeetsLive(ss: seq<Section>, k: nat)
    requires k < |ss|
  {
    Live(ss[k], k) && exists j {:trigger ss[j]} :: 0 <= j < k && Live(ss[j], j) && Overlap(ss[k].shdr, ss[j].shdr)
  }

  ghost predicate NoneMeetsNull(ss: seq<Section>, n: nat, start: nat) {
    forall k :: 0 <= k < n <= |ss| ==> !MeetsNull(ss, k, start)
  }

  lemma {:induction false} ReachCovers(ss: seq<Section>, i: nat, start: nat)
    requires i <= |ss|
    ensures EndsBy(ss, i, Reach(ss, i, start))
  {
    if i > 0 {
      ReachCovers(ss, i - 1, start);
    }
  }

  /** One section is refused just if it overlaps an earlier live section or meets an earlier null header. */
  lemma RefusedExactly(ss: seq<Section>, i: nat, start: nat)
    requires i < |ss| && Live(ss[i], i) && Ready(ss[i])
    ensures CheckSection(ss, i, Reach(ss, i, start), false).Failed?
       <==> MeetsNull(ss, i, start) || MeetsLive(ss, i)
    ensures CheckSection(ss, i, Reach(ss, i, start), false).Failed? ==>
              CheckSection(ss, i, Reach(ss, i, start), false) == Failed(ScnOverlap)
  {
    ReachCovers(ss, i, start);
    if MeetsLive(ss, i) {
      assert OverlapsEarlier(ss, i);
    } else if MeetsNull(ss, i, start) {
      var j :| 0 <= j < i && !Live(ss[j], j) && Overlap(ss[i].shdr, ss[j].shdr);
      assert OverlapsEarlier(ss, i);
    }
  }

  lemma OneMoreApart(ss: seq<Section>, i: nat, start: nat)
    requires i < |ss| && NoOverlaps(ss, i) && NoneMeetsNull(ss, i, start)
    ensures NoOverlaps(ss, i + 1) <==> !MeetsLive(ss, i)
    ensures NoneMeetsNull(ss, i + 1, start) <==> !MeetsNull(ss, i, start)
    ensures NoOverlaps(ss, |ss|) ==> !MeetsLive(ss, i)
    ensures NoneMeetsNull(ss, |ss|, start) ==> !MeetsNull(ss, i, start)
  {
  }

  lemma {:induction false} CheckedFrom(ss: seq<Section>, i: nat, start: nat)
    requires i <= |ss| && NoOverlaps(ss, i) && NoneMeetsNull(ss, i, start)
    requires forall j :: 0 <= j < |ss| && Live(ss[j], j) ==> Ready(ss[j])
    ensures var r, good := CheckSections(ss, i, Reach(ss, i, start), false),
                           NoOverlaps(ss, |ss|) && NoneMeetsNull(ss, |ss|, start);
            if good then r.Laid? else r == Failed(ScnOverlap)
    decreases |ss| - i
  {
    if i < |ss| {
      var checked := CheckSection(ss, i, Reach(ss, i, start), false);
      if Live(ss[i], i) {
        RefusedExactly(ss, i, start);
      }
      OneMoreApart(ss, i, start);
      if checked.Laid? {
        assert checked.value.1 == Reach(ss, i + 1, start);
        CheckedFrom(ss, i + 1, start);
      }
    }
  }

  /** The check is exact: a caller's layout with room for its data is refused just when two of its sections overlap,
      or a section that starts before the end of earlier ones meets the header of an earlier null section. */
  lemma CheckIsExact(ss: seq<Section>, start: nat)
    requires forall j :: 0 <= j < |ss| && Live(ss[j], j) ==> Ready(ss[j])
    ensures var r, good := CheckSections(ss, 0, start, false),
                           NoOverlaps(ss, |ss|) && NoneMeetsNull(ss, |ss|, start);
            if good then r.Laid? else r == Failed(ScnOverlap)
  {
    CheckedFrom(ss, 0, start);
  }

  /** A first header that holds the escaped count, and two sections apart from each other. */
  lemma CountIsInTheWay(ss: seq<Section>, start: nat)
    requires |ss| == 3 && start <= 0x100
    requires !Live(ss[0], 0) && ss[0].shdr.stype == SHT_NULL && ss[0].shdr.offset == 0
    requires ss[0].shdr.size >= SHN_LORESERVE
    requires Live(ss[1], 1) && Ready(ss[1]) && ss[1].shdr.offset == 0x200 && ss[1].shdr.size == 0x10
    requires Live(ss[2], 2) && Ready(ss[2]) && ss[2].shdr.offset == 0x100 && ss[2].shdr.size == 0x10
    ensures NoOverlaps(ss, 3) && CheckSections(ss, 0, start, false) == Failed(ScnOverlap)
  {
    CheckIsExact(ss, start);
    assert Overlap(ss[2].shdr, ss[0].shdr);
    assert Reach(ss, 2, start) >= End(ss[1].shdr);
    assert MeetsNull(ss, 2, start);
  }

  /** For whole files: an accepted caller's layout keeps non-empty sections apart and inside. */
  lemma CallerLayoutKeepsApart(f: File, i: nat, j: nat)
    requires |f.phdrs| >= PN_XNUM ==> f.sections != []
    requires f.callerLayout && !f.allowOverlap && Layout(f).Laid?
    requires i < j < |f.sections| && Filed(f.sections[i], i) && Filed(f.sections[j], j)
    requires f.sections[i].shdr.size > 0 && f.sections[j].shdr.size > 0
    ensures var h, g := f.sections[i].shdr, f.sections[j].shdr;
            && (h.offset + h.size <= g.offset || g.offset + g.size <= h.offset)
            && h.offset + h.size <= Layout(f).value.1 && g.offset + g.size <= Layout(f).value.1
  {
    Sections0Same(f);
    AcceptedHasNoOverlap(Sections0(f), 0, AfterPhdrs(f));
    assert !Overlap(Sections0(f)[j].shdr, Sections0(f)[i].shdr);
    assert End(Sections0(f)[i].shdr) <= LaySections(f).value.1 && End(Sections0(f)[j].shdr) <= LaySections(f).value.1;
  }
}
