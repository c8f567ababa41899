/**
 What the default layout promises: disjoint, ordered and aligned regions.
 */
module ElfLayoutLaws {
  import opened Arithmetic
  import opened Basics
  import opened ElfTypes
  import opened ElfLayout

  // ----- Alignment -----

  lemma AlignedUp(v: nat, a: nat)
    ensures a > 1 ==> AlignUp(v, a) % a == 0
    ensures a > 1 && v > 0 ==> a <= AlignUp(v, a)
  {
    if a > 1 {
      var x := v + a - 1;
      assert x - x % a == x / a * a;
      MultipleIsAligned(x / a, a);
      if v > 0 {
        PositiveMultiple(AlignUp(v, a), a);
      }
    }
  }

  predicate PowerOfTwo(a: nat) {
    a == 1 || (a > 0 && a % 2 == 0 && PowerOfTwo(a / 2))
  }

  lemma {:induction false} PowersDivide(a: nat, b: nat)
    requires PowerOfTwo(a) && PowerOfTwo(b) && a <= b
    ensures b % a == 0
  {
    if a > 1 {
      PowersDivide(a / 2, b / 2);
      var q := b / 2 / (a / 2);
      assert b / 2 == q * (a / 2);
      assert b == q * a by {
        assert a == 2 * (a / 2) && b == 2 * (b / 2);
      }
      MultipleIsAligned(q, a);
    }
  }

  lemma {:induction false} SumAligned(x: nat, y: nat, a: nat, b: nat)
    requires a > 0 && b > 0 && x % b == 0 && b % a == 0 && y % a == 0
    ensures (x + y) % a == 0
  {
    var q, r, s := x / b, b / a, y / a;
    assert x == q * b && b == r * a && y == s * a;
    assert x + y == (q * r + s) * a;
    MultipleIsAligned(q * r + s, a);
  }

  /** No alignment but zero and powers of two. */
  predicate SoundAligns(ds: seq<Data>) {
    forall k :: 0 <= k < |ds| ==> ds[k].align == 0 || PowerOfTwo(ds[k].align)
  }

  lemma {:induction false} MaxAlignDominates(ds: seq<Data>, a: nat)
    requires SoundAligns(ds) && PowerOfTwo(a)
    ensures PowerOfTwo(MaxAlign(ds, a)) && MaxAlign(ds, a) >= a
    ensures forall k :: 0 <= k < |ds| ==> ds[k].align <= MaxAlign(ds, a)
  {
    if ds != [] {
      MaxAlignDominates(ds[1..], Max(a, ds[0].align));
      forall k | 0 <= k < |ds|
        ensures ds[k].align <= MaxAlign(ds, a)
      {
        if k > 0 {
          assert ds[k] == ds[1..][k - 1];
        }
      }
    }
  }

  // ----- The buffers of a section -----

  /** Buffers in order, each where its alignment allows it, all between `from` and `to`. */
  predicate InOrder(stype: Word, ds: seq<Data>, from: nat, to: nat) {
    if ds == [] then from <= to
    else
      var fsize := DataSize(stype, ds[0]);
      && fsize.Some? && from <= ds[0].off
      && (ds[0].align > 1 ==> ds[0].off % ds[0].align == 0)
      && InOrder(stype, ds[1..], ds[0].off + fsize.value, to)
  }

  lemma {:induction false} PlacedInOrder(stype: Word, ds: seq<Data>, len: nat)
    requires PlaceData(stype, ds, len).Some?
    ensures var (ts, end) := PlaceData(stype, ds, len).value;
            && |ts| == |ds| && InOrder(stype, ts, len, end) && len <= end
            && forall k :: 0 <= k < |ds| ==> ts[k] == Moved(ds[k], ts[k].off)
  {
    if ds != [] {
      AlignedUp(len, ds[0].align);
      var fsize := DataSize(stype, ds[0]).value;
      PlacedInOrder(stype, ds[1..], AlignUp(len, ds[0].align) + fsize);
    }
  }

  lemma {:induction false} InOrderAt(stype: Word, ds: seq<Data>, from: nat, to: nat, k: nat)
    requires InOrder(stype, ds, from, to) && k < |ds|
    ensures DataSize(stype, ds[k]).Some? && from <= ds[k].off && ds[k].off + DataSize(stype, ds[k]).value <= to
    ensures ds[k].align > 1 ==> ds[k].off % ds[k].align == 0
  {
    if k == 0 {
      InOrderFits(stype, ds[1..], ds[0].off + DataSize(stype, ds[0]).value, to);
    } else {
      InOrderAt(stype, ds[1..], ds[0].off + DataSize(stype, ds[0]).value, to, k - 1);
    }
  }

  lemma {:induction false} InOrderFits(stype: Word, ds: seq<Data>, from: nat, to: nat)
    requires InOrder(stype, ds, from, to)
    ensures from <= to
  {
    if ds != [] {
      InOrderFits(stype, ds[1..], ds[0].off + DataSize(stype, ds[0]).value, to);
    }
  }

  // ----- The sections -----

  predicate Live(s: Section, index: nat) {
    index != SHN_UNDEF && s.shdr.stype != SHT_NULL
  }

  predicate Filed(s: Section, index: nat) {
    Live(s, index) && s.shdr.stype != SHT_NOBITS
  }

  /** What a placed live section is like, if its offset fits its field. */
  predicate Placed(s: Section, before: Section, off: nat, end: nat) {
    var h := s.shdr;
    && off <= h.offset && End(h) <= end
    && h == before.shdr.(offset := h.offset, size := h.size, entsize := EntSize(before.shdr),
                         addralign := ToWord(MaxAlign(before.data, 1)))
    && s.data == PlaceDataOf(before) && h.size == ToWord(LengthOf(before))
    && (h.stype != SHT_NOBITS ==> h.size == LengthOf(before))
    && InOrder(h.stype, s.data, 0, LengthOf(before))
    && (SoundAligns(before.data) ==> MaxAlign(before.data, 1) > 0 && h.offset % MaxAlign(before.data, 1) == 0)
  }

  function PlaceDataOf(s: Section): seq<Data> {
    var r := PlaceData(s.shdr.stype, s.data, 0);
    if r.Some? then r.value.0 else []
  }

  function LengthOf(s: Section): nat {
    var r := PlaceData(s.shdr.stype, s.data, 0);
    if r.Some? then r.value.1 else 0
  }

  lemma PlacedSection(s: Section, index: nat, off: nat)
    requires PlaceSection(s, index, off).Some?
    ensures var (t, end) := PlaceSection(s, index, off).value;
            && off <= end && t.shdr.stype == s.shdr.stype
            && (!Live(s, index) ==> end == off && t.data == s.data)
  {
  }

  lemma PlacedLive(s: Section, index: nat, off: nat)
    requires Live(s, index) && PlaceSection(s, index, off).Some?
    requires PlaceSection(s, index, off).value.1 < WORD
    ensures var (t, end) := PlaceSection(s, index, off).value;
            Placed(t, s, off, end)
  {
    var al := MaxAlign(s.data, 1);
    var at := AlignUp(off, al);
    var t := PlaceSection(s, index, off).value.0;
    PlacedInOrder(s.shdr.stype, s.data, 0);
    assert at < WORD && t.shdr.offset == at && t.data == PlaceDataOf(s);
    if SoundAligns(s.data) {
      SoundOffset(s.data, off);
    }
  }

  lemma SoundOffset(ds: seq<Data>, off: nat)
    requires SoundAligns(ds)
    ensures MaxAlign(ds, 1) > 0 && AlignUp(off, MaxAlign(ds, 1)) % MaxAlign(ds, 1) == 0
  {
    MaxAlignDominates(ds, 1);
    AlignedUp(off, MaxAlign(ds, 1));
  }

  lemma {:induction false} PlacedSections(ss: seq<Section>, index: nat, off: nat)
    requires PlaceSections(ss, index, off).Some?
    ensures var (ts, end) := PlaceSections(ss, index, off).value;
            |ts| == |ss| && off <= end && forall k :: 0 <= k < |ss| ==> ts[k].shdr.stype == ss[k].shdr.stype
  {
    if ss != [] {
      PlacedSection(ss[0], index, off);
      PlacedSections(ss[1..], index + 1, PlaceSection(ss[0], index, off).value.1);
    }
  }

  lemma {:induction false} PlacedAt(ss: seq<Section>, index: nat, off: nat, i: nat)
    requires PlaceSections(ss, index, off).Some? && i < |ss| && Live(ss[i], index + i)
    requires PlaceSections(ss, index, off).value.1 < WORD
    ensures var (ts, end) := PlaceSections(ss, index, off).value;
            |ts| == |ss| && Placed(ts[i], ss[i], off, end)
  {
    var next := PlaceSection(ss[0], index, off).value.1;
    PlacedSection(ss[0], index, off);
    PlacedSections(ss[1..], index + 1, next);
    var (rest, end) := PlaceSections(ss[1..], index + 1, next).value;
    if i > 0 {
      PlacedAt(ss[1..], index + 1, next, i - 1);
      PlacedGrows(rest[i - 1], ss[i], next, end, off, end);
    } else {
      PlacedLive(ss[0], index, off);
      PlacedGrows(PlaceSection(ss[0], index, off).value.0, ss[0], off, next, off, end);
    }
  }

  lemma PlacedGrows(s: Section, before: Section, off: nat, end: nat, less: nat, more: nat)
    requires Placed(s, before, off, end) && less <= off && end <= more
    ensures Placed(s, before, less, more)
  {
  }

  lemma {:induction false} PlacedApart(ss: seq<Section>, index: nat, off: nat, i: nat, j: nat)
    requires PlaceSections(ss, index, off).Some? && i < j < |ss| && Live(ss[i], index + i) && Live(ss[j], index + j)
    requires PlaceSections(ss, index, off).value.1 < WORD
    ensures var ts := PlaceSections(ss, index, off).value.0;
            |ts| == |ss| && End(ts[i].shdr) <= ts[j].shdr.offset
  {
    var next := PlaceSection(ss[0], index, off).value.1;
    PlacedSection(ss[0], index, off);
    PlacedSections(ss[1..], index + 1, next);
    if i > 0 {
      PlacedApart(ss[1..], index + 1, next, i - 1, j - 1);
    } else {
      FirstEnds(ss[0], index, off, next);
      RestStarts(ss[1..], index + 1, next, j - 1);
    }
  }

  lemma FirstEnds(s: Section, index: nat, off: nat, next: nat)
    requires Live(s, index) && PlaceSection(s, index, off).Some? && next == PlaceSection(s, index, off).value.1 < WORD
    ensures End(PlaceSection(s, index, off).value.0.shdr) <= next
  {
    PlacedLive(s, index, off);
  }

  lemma RestStarts(ss: seq<Section>, index: nat, off: nat, j: nat)
    requires PlaceSections(ss, index, off).Some? && j < |ss| && Live(ss[j], index + j)
    requires PlaceSections(ss, index, off).value.1 < WORD
    ensures |PlaceSections(ss, index, off).value.0| == |ss|
    ensures off <= PlaceSections(ss, index, off).value.0[j].shdr.offset
  {
    PlacedAt(ss, index, off, j);
  }

  // ----- Main results for the default layout -----

  /** The offset and the buffers of a live section of a finished layout. */
  predicate SectionLaidOut(s: Section, before: Section, from: nat, to: nat) {
    && Placed(s, before, from, to)
    && s.shdr.stype == before.shdr.stype
  }

  /** Headers, sections and section header table in order, apart from each other, up to the end. */
  ghost predicate LaidOut(f: File, g: File, end: nat) {
    var n, m := |f.phdrs|, |f.sections|;
    && g.phdrs == f.phdrs && |g.sections| == m
    && (n > 0 ==> g.ehdr.phoff == EHDR_SIZE)
    && (m == 0 ==> end == EHDR_SIZE + PhdrBytes(n))
    && (m > 0 ==> EHDR_SIZE + PhdrBytes(n) <= g.ehdr.shoff && g.ehdr.shoff % ADDR_SIZE == 0
                  && g.ehdr.shoff + ShdrBytes(m) == end)
    && (forall i {:trigger g.sections[i]} :: 0 <= i < m && Live(f.sections[i], i) ==>
          SectionLaidOut(g.sections[i], f.sections[i], EHDR_SIZE + PhdrBytes(n), g.ehdr.shoff))
    && (forall i, j {:trigger g.sections[i], g.sections[j]} ::
          0 <= i < j < m && Live(f.sections[i], i) && Live(f.sections[j], j) ==>
          End(g.sections[i].shdr) <= g.sections[j].shdr.offset)
  }

  predicate Defaulted(f: File) {
    && (|f.phdrs| >= PN_XNUM ==> f.sections != [])
    && !f.callerLayout && Layout(f).Laid? && Layout(f).value.1 < WORD
  }

  lemma Sections0Same(f: File)
    requires |f.phdrs| >= PN_XNUM ==> f.sections != []
    ensures |Sections0(f)| == |f.sections|
    ensures forall i :: 0 < i < |f.sections| ==> Sections0(f)[i] == f.sections[i]
  {
  }

  lemma LayoutIsFinished(f: File)
    requires Defaulted(f)
    ensures PlaceSections(Sections0(f), 0, AfterPhdrs(f)).Some? && ValidEncoding(Encoding(f))
    ensures var (ts, off) := PlaceSections(Sections0(f), 0, AfterPhdrs(f)).value;
            Layout(f) == Laid((Finished(f, ts, HeadersAt(f, off).0), HeadersAt(f, off).1))
  {
  }

  lemma HeadersAtEnd(f: File, off: nat)
    requires !f.callerLayout && HeadersAt(f, off).1 < WORD
    ensures var (shoff, end) := HeadersAt(f, off);
            var m := |f.sections|;
            && off < WORD && shoff < WORD
            && (m == 0 ==> shoff == 0 && end == off)
            && (m > 0 ==> shoff == AlignUp(off, ADDR_SIZE) && end == shoff + ShdrBytes(m))
  {
  }

  lemma AfterPhdrsAligned(f: File)
    requires !f.callerLayout
    ensures AfterPhdrs(f) == EHDR_SIZE + PhdrBytes(|f.phdrs|) && PhdrsAt(f) == if |f.phdrs| == 0 then 0 else EHDR_SIZE
  {
  }

  /** What a default layout stores, in terms of the placed sections. */
  lemma DefaultParts(f: File)
    requires Defaulted(f)
    ensures PlaceSections(Sections0(f), 0, AfterPhdrs(f)).Some?
    ensures var (g, end) := Layout(f).value;
            var (ts, off) := PlaceSections(Sections0(f), 0, AfterPhdrs(f)).value;
            var n, m := |f.phdrs|, |f.sections|;
            && AfterPhdrs(f) == EHDR_SIZE + PhdrBytes(n) <= off < WORD && g.phdrs == f.phdrs
            && |ts| == |g.sections| == m && (forall i :: 0 < i < m ==> g.sections[i] == ts[i])
            && g.ehdr.phoff == (if n == 0 then 0 else EHDR_SIZE)
            && (m == 0 ==> off == end == AfterPhdrs(f))
            && (m > 0 ==> g.ehdr.shoff == AlignUp(off, ADDR_SIZE) && end == g.ehdr.shoff + ShdrBytes(m))
  {
    Sections0Same(f);
    PlacedSections(Sections0(f), 0, AfterPhdrs(f));
    LayoutIsFinished(f);
    AfterPhdrsAligned(f);
    HeadersAtEnd(f, PlaceSections(Sections0(f), 0, AfterPhdrs(f)).value.1);
  }

  /** The layout of one live section. */
  lemma LiveSectionLaidOut(f: File, i: nat)
    requires Defaulted(f) && i < |f.sections| && Live(f.sections[i], i)
    ensures var g := Layout(f).value.0;
            && |g.sections| == |f.sections|
            && SectionLaidOut(g.sections[i], f.sections[i], EHDR_SIZE + PhdrBytes(|f.phdrs|), g.ehdr.shoff)
            && PlaceData(f.sections[i].shdr.stype, f.sections[i].data, 0).Some?
  {
    DefaultParts(f);
    Sections0Same(f);
    var (ts, off) := PlaceSections(Sections0(f), 0, AfterPhdrs(f)).value;
    PlacedAt(Sections0(f), 0, AfterPhdrs(f), i);
    PlacedSections(Sections0(f), 0, AfterPhdrs(f));
    PlacedHasData(Sections0(f), 0, AfterPhdrs(f), i);
    PlacedGrows(ts[i], f.sections[i], AfterPhdrs(f), off, AfterPhdrs(f), AlignUp(off, ADDR_SIZE));
  }

  lemma LiveSectionsInOrder(f: File, i: nat, j: nat)
    requires Defaulted(f) && i < j < |f.sections| && Live(f.sections[i], i) && Live(f.sections[j], j)
    ensures var g := Layout(f).value.0;
            |g.sections| == |f.sections| && End(g.sections[i].shdr) <= g.sections[j].shdr.offset
  {
    DefaultParts(f);
    Sections0Same(f);
    PlacedApart(Sections0(f), 0, AfterPhdrs(f), i, j);
  }

  /** A default layout whose end fits a 32-bit offset keeps all regions apart, in order and inside. */
  lemma DefaultLayoutIsLaidOut(f: File)
    requires Defaulted(f)
    ensures LaidOut(f, Layout(f).value.0, Layout(f).value.1)
  {
    var g := Layout(f).value.0;
    DefaultParts(f);
    AlignedUp(PlaceSections(Sections0(f), 0, AfterPhdrs(f)).value.1, ADDR_SIZE);
    forall i {:trigger g.sections[i]} | 0 <= i < |f.sections| && Live(f.sections[i], i)
      ensures SectionLaidOut(g.sections[i], f.sections[i], EHDR_SIZE + PhdrBytes(|f.phdrs|), g.ehdr.shoff)
    {
      LiveSectionLaidOut(f, i);
    }
    forall i, j {:trigger g.sections[i], g.sections[j]} |
      0 <= i < j < |f.sections| && Live(f.sections[i], i) && Live(f.sections[j], j)
      ensures End(g.sections[i].shdr) <= g.sections[j].shdr.offset
    {
      LiveSectionsInOrder(f, i, j);
    }
  }

  lemma SectionBufferAligned(t: Section, before: Section, from: nat, to: nat, k: nat)
    requires SectionLaidOut(t, before, from, to) && PlaceData(before.shdr.stype, before.data, 0).Some?
    requires SoundAligns(before.data) && k < |before.data|
    ensures |t.data| == |before.data| && t.data[k].align == before.data[k].align
    ensures t.data[k].align > 0 ==> (t.shdr.offset + t.data[k].off) % t.data[k].align == 0
  {
    PlacedInOrder(before.shdr.stype, before.data, 0);
    InOrderAt(t.shdr.stype, t.data, 0, LengthOf(before), k);
    var a := before.data[k].align;
    if a > 0 {
      MaxAlignDominates(before.data, 1);
      PowersDivide(a, MaxAlign(before.data, 1));
      SumAligned(t.shdr.offset, t.data[k].off, a, MaxAlign(before.data, 1));
    }
  }

  /** If no alignment but zero and powers of two is asked for, every buffer lands on its alignment. */
  lemma BuffersAreAligned(f: File, i: nat, k: nat)
    requires Defaulted(f) && i < |f.sections| && Live(f.sections[i], i) && k < |f.sections[i].data|
    requires SoundAligns(f.sections[i].data)
    ensures var g := Layout(f).value.0;
            && |g.sections| == |f.sections| && |g.sections[i].data| == |f.sections[i].data|
            && g.sections[i].data[k].align == f.sections[i].data[k].align
            && (g.sections[i].data[k].align > 0 ==>
                  (g.sections[i].shdr.offset + g.sections[i].data[k].off) % g.sections[i].data[k].align == 0)
  {
    var g := Layout(f).value.0;
    LiveSectionLaidOut(f, i);
    SectionBufferAligned(g.sections[i], f.sections[i], EHDR_SIZE + PhdrBytes(|f.phdrs|), g.ehdr.shoff, k);
  }

  lemma {:induction false} PlacedHasData(ss: seq<Section>, index: nat, off: nat, i: nat)
    requires PlaceSections(ss, index, off).Some? && i < |ss| && Live(ss[i], index + i)
    ensures PlaceData(ss[i].shdr.stype, ss[i].data, 0).Some?
  {
    if i > 0 {
      PlacedHasData(ss[1..], index + 1, PlaceSection(ss[0], index, off).value.1, i - 1);
    }
  }
}
