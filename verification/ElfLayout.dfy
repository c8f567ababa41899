/**
 Assigning file offsets: what an update computes before anything is written.
 */
module ElfLayout {
  import opened Basics
  import opened ElfTypes

  /** A data buffer of a section. A buffer that is there has `size` bytes. */
  datatype Data = Data(buf: Option<seq<byte>>, dtype: ElfType, size: nat, off: nat, align: nat, version: nat,
      dirty: bool)

  datatype Section = Section(shdr: Shdr, data: seq<Data>, scnDirty: bool, shdrDirty: bool)

  /** An open ELF file of class 32. `native` is the encoding of the host. */
  datatype File = File(
    ehdr: Ehdr, phdrs: seq<Phdr>, sections: seq<Section>,
    elfDirty: bool, ehdrDirty: bool, phdrDirty: bool,
    callerLayout: bool, allowOverlap: bool, native: nat)

  datatype Error = UnknownVersion | UnknownEncoding | BadData | Scn2Small | ScnOverlap

  datatype Laid<+T> = Laid(value: T) | Failed(error: Error)

  function AlignUp(v: nat, a: nat): (r: nat)
    ensures v <= r && (if a > 1 then r < v + a else r == v)
  {
    if a > 1 then
      assert (v + a - 1) % a < a;
      v + a - 1 - (v + a - 1) % a
    else v
  }

  // ----- The buffers of one section -----

  /** The file size of a buffer; none for an unknown version or a type without translator. */
  function DataSize(stype: Word, d: Data): Option<nat> {
    if d.version != EV_CURRENT then None
    else if d.size == 0 || stype == SHT_NOBITS || d.dtype.TInvalid? then Some(d.size)
    else if d.dtype.TSxword? || d.dtype.TXword? then None
    else if FileSize(d.dtype) == 0 then Some(d.size)
    else Some(d.size / FileSize(d.dtype) * FileSize(d.dtype))
  }

  function Moved(d: Data, off: nat): Data {
    d.(off := off, dirty := d.dirty || d.off != off)
  }

  /** Default layout: each buffer at the next offset its alignment allows. */
  function PlaceData(stype: Word, ds: seq<Data>, len: nat): Option<(seq<Data>, nat)> {
    if ds == [] then Some(([], len))
    else
      var fsize := DataSize(stype, ds[0]);
      if fsize.None? then None
      else
        var off := AlignUp(len, ds[0].align);
        var rest := PlaceData(stype, ds[1..], off + fsize.value);
        if rest.None? then None else Some(([Moved(ds[0], off)] + rest.value.0, rest.value.1))
  }

  function MaxAlign(ds: seq<Data>, a: nat): nat {
    if ds == [] then a else MaxAlign(ds[1..], Max(a, ds[0].align))
  }

  /** Caller's layout: where the farthest buffer ends. */
  function DataEnd(stype: Word, ds: seq<Data>, len: nat): Option<nat> {
    if ds == [] then Some(len)
    else
      var fsize := DataSize(stype, ds[0]);
      if fsize.None? then None else DataEnd(stype, ds[1..], Max(len, ds[0].off + fsize.value))
  }

  // ----- Default layout of the sections -----

  /** An entry size is filled in where the caller left it zero and the type has one. */
  function EntSize(h: Shdr): Word {
    var t := SectionType(h.stype);
    if h.entsize == 0 && t != TByte && FileSize(t) > 1 then FileSize(t) else h.entsize
  }

  predicate OnDisk(h: Shdr) {
    h.stype != SHT_NULL && h.stype != SHT_NOBITS
  }

  function PlaceSection(s: Section, index: nat, off: nat): Option<(Section, nat)> {
    var h := s.shdr;
    if index == SHN_UNDEF then
      var h' := h.(entsize := 0, offset := 0, size := 0, addralign := 0);
      Some((s.(shdr := h', shdrDirty := s.shdrDirty || h' != h), off))
    else if h.stype == SHT_NULL then Some((s, off))
    else
      var placed := PlaceData(h.stype, s.data, 0);
      if placed.None? then None
      else
        var (data, len) := placed.value;
        var al := MaxAlign(s.data, 1);
        var at := AlignUp(off, al);
        var h' := h.(entsize := EntSize(h), offset := ToWord(at), size := ToWord(len), addralign := ToWord(al));
        Some((s.(shdr := h', data := data,
                 shdrDirty := s.shdrDirty || EntSize(h) != h.entsize || at != h.offset || len != h.size
                     || al != h.addralign),
              if h.stype == SHT_NOBITS then at else at + len))
  }

  function PlaceSections(ss: seq<Section>, index: nat, off: nat): Option<(seq<Section>, nat)> {
    if ss == [] then Some(([], off))
    else
      var first := PlaceSection(ss[0], index, off);
      if first.None? then None
      else
        var rest := PlaceSections(ss[1..], index + 1, first.value.1);
        if rest.None? then None else Some(([first.value.0] + rest.value.0, rest.value.1))
  }

  // ----- Caller's layout of the sections -----

  function End(h: Shdr): nat {
    if h.stype == SHT_NOBITS then h.offset else h.offset + h.size
  }

  predicate Overlap(h: Shdr, g: Shdr) {
    End(h) > g.offset && End(g) > h.offset
  }

  predicate OverlapsEarlier(ss: seq<Section>, i: nat)
    requires i < |ss|
  {
    exists j :: 0 <= j < i && Overlap(ss[i].shdr, ss[j].shdr)
  }

  /** Earlier sections are scanned only if the section starts before the end `off` of all of them. */
  function CheckSection(ss: seq<Section>, i: nat, off: nat, allowOverlap: bool): Laid<(Section, nat)>
    requires i < |ss|
  {
    var s, h := ss[i], ss[i].shdr;
    if i == SHN_UNDEF then Laid((s.(shdr := h.(entsize := 0), shdrDirty := s.shdrDirty || h.entsize != 0), off))
    else if h.stype == SHT_NULL then Laid((s, off))
    else
      var len := DataEnd(h.stype, s.data, 0);
      if len.None? then Failed(BadData)
      else if len.value > h.size then Failed(Scn2Small)
      else if !allowOverlap && h.offset < off && OverlapsEarlier(ss, i) then Failed(ScnOverlap)
      else Laid((s.(shdr := h.(entsize := EntSize(h)), shdrDirty := s.shdrDirty || EntSize(h) != h.entsize),
          Max(off, End(h))))
  }

  function CheckSections(ss: seq<Section>, i: nat, off: nat, allowOverlap: bool): Laid<(seq<Section>, nat)>
    requires i <= |ss|
    decreases |ss| - i
  {
    if i == |ss| then Laid(([], off))
    else
      match CheckSection(ss, i, off, allowOverlap)
      case Failed(e) => Failed(e)
      case Laid((s, off')) =>
        match CheckSections(ss, i + 1, off', allowOverlap)
        case Failed(e) => Failed(e)
        case Laid((rest, end)) => Laid(([s] + rest, end))
  }

  // ----- The file -----

  function SetInfo0(ss: seq<Section>, n: nat): seq<Section>
    requires ss != []
  {
    ss[0 := ss[0].(shdr := ss[0].shdr.(info := ToWord(n)), shdrDirty := ss[0].shdrDirty || ss[0].shdr.info != n)]
  }

  function SetSize0(ss: seq<Section>, n: nat): seq<Section>
    requires ss != []
  {
    ss[0 := ss[0].(shdr := ss[0].shdr.(size := ToWord(n)), shdrDirty := ss[0].shdrDirty || ss[0].shdr.size != n)]
  }

  function EscapeCount(ss: seq<Section>, m: nat): seq<Section> {
    if m >= SHN_LORESERVE && ss != [] then SetSize0(ss, m) else ss
  }

  function StampIdent(id: Ident, encoding: byte): Ident {
    id[0 := 0x7f][1 := 0x45][2 := 0x4c][3 := 0x46][EI_CLASS := ELFCLASS32][EI_DATA := encoding]
      [EI_VERSION := EV_CURRENT]
  }

  /** The end of the program headers, which the sections follow. */
  function AfterPhdrs(f: File): nat {
    var n := |f.phdrs|;
    if n == 0 then EHDR_SIZE
    else if f.callerLayout then Max(EHDR_SIZE, f.ehdr.phoff + PhdrBytes(n))
    else AlignUp(EHDR_SIZE, ADDR_SIZE) + PhdrBytes(n)
  }

  function Sections0(f: File): seq<Section>
    requires |f.phdrs| >= PN_XNUM ==> f.sections != []
  {
    if |f.phdrs| >= PN_XNUM then SetInfo0(f.sections, |f.phdrs|) else f.sections
  }

  function SectionsLaid(ss: seq<Section>, off: nat, caller: bool, allowOverlap: bool): Laid<(seq<Section>, nat)> {
    if caller then CheckSections(ss, 0, off, allowOverlap)
    else
      var r := PlaceSections(ss, 0, off);
      if r.None? then Failed(BadData) else Laid(r.value)
  }

  function LaySections(f: File): Laid<(seq<Section>, nat)>
    requires |f.phdrs| >= PN_XNUM ==> f.sections != []
  {
    SectionsLaid(Sections0(f), AfterPhdrs(f), f.callerLayout, f.allowOverlap)
  }

  /** The offset the section headers want and the end of the file. */
  function HeadersAt(f: File, off: nat): (nat, nat) {
    var m := |f.sections|;
    if m == 0 then (if f.callerLayout then f.ehdr.shoff else 0, off)
    else if f.callerLayout then (f.ehdr.shoff, Max(off, f.ehdr.shoff + ShdrBytes(m)))
    else (AlignUp(off, ADDR_SIZE), AlignUp(off, ADDR_SIZE) + ShdrBytes(m))
  }

  function PhdrsAt(f: File): Word {
    if f.callerLayout then f.ehdr.phoff else if |f.phdrs| == 0 then 0 else ToWord(AlignUp(EHDR_SIZE, ADDR_SIZE))
  }

  function Encoding(f: File): nat {
    if f.ehdr.ident[EI_DATA] == 0 then f.native else f.ehdr.ident[EI_DATA]
  }

  function Stamped(f: File, encoding: byte, shoff: nat): Ehdr {
    var n, m := |f.phdrs|, |f.sections|;
    f.ehdr.(
      ident := StampIdent(f.ehdr.ident, encoding), version := EV_CURRENT, ehsize := EHDR_SIZE,
      phoff := PhdrsAt(f), phnum := if n >= PN_XNUM then PN_XNUM else n, phentsize := if n == 0 then 0 else PHDR_SIZE,
      shoff := ToWord(shoff), shnum := if m >= SHN_LORESERVE then 0 else m,
      shentsize := if m == 0 then 0 else SHDR_SIZE)
  }

  predicate ValidEncoding(e: nat) {
    e == ELFDATA2LSB || e == ELFDATA2MSB
  }

  /** The file once the sections are laid out and the section headers have their offset. */
  function Finished(f: File, ss: seq<Section>, shoff: nat): File
    requires ValidEncoding(Encoding(f))
  {
    var ehdr := Stamped(f, Encoding(f), shoff);
    f.(ehdr := ehdr, ehdrDirty := f.ehdrDirty || ehdr != f.ehdr || shoff != ehdr.shoff,
       sections := EscapeCount(ss, |f.sections|))
  }

  /** Everything the layout changes, and the length of the file. */
  function Layout(f: File): Laid<(File, nat)>
    requires |f.phdrs| >= PN_XNUM ==> f.sections != []
  {
    if f.ehdr.version != 0 && f.ehdr.version != EV_CURRENT then Failed(UnknownVersion)
    else if !ValidEncoding(Encoding(f)) then Failed(UnknownEncoding)
    else
      match LaySections(f)
      case Failed(e) => Failed(e)
      case Laid((ss, off)) => Laid((Finished(f, ss, HeadersAt(f, off).0), HeadersAt(f, off).1))
  }

  predicate SectionDirty(s: Section, index: nat) {
    || s.scnDirty || s.shdrDirty
    || (index != SHN_UNDEF && s.shdr.stype != SHT_NULL && exists k :: 0 <= k < |s.data| && s.data[k].dirty)
  }

  /** What the layout reports: something has to be written. */
  predicate Dirty(f: File) {
    f.elfDirty || f.phdrDirty || f.ehdrDirty || exists i :: 0 <= i < |f.sections| && SectionDirty(f.sections[i], i)
  }
}
