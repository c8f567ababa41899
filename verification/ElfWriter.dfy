/**
 What an update writes: the pieces of the file, in the order in which they are written.
 */
module ElfWriter {
  import opened Basics
  import opened ElfTypes
  import opened ElfCoding
  import opened ElfPatches
  import opened ElfVersions
  import opened ElfLayout

  datatype WriteError = NullBuffer | Untranslatable | BadRecords(records: WalkError)

  datatype Writing = Pieces(ps: seq<Piece>) | Refused(error: WriteError)

  function Then(a: Writing, b: Writing): Writing {
    match a
    case Refused(_) => a
    case Pieces(ps) =>
      match b
      case Refused(_) => b
      case Pieces(qs) => Pieces(ps + qs)
  }

  /** Version records are translated one by one, everything else as an array. */
  function KindOf(t: ElfType): Option<RecordKind> {
    match t
    case TVdef => Some(VERDEF)
    case TVneed => Some(VERNEED)
    case _ => None
  }

  function Content(t: ElfType, buf: seq<byte>, native: nat, encoding: nat, at: nat): Writing {
    match KindOf(t)
    case None => Pieces([Piece(at, RecodeArray(buf, Fields(t), native, encoding))])
    case Some(kind) =>
      match Walk(kind, buf, native, 0)
      case Bad(e) => Refused(BadRecords(e))
      case Walked(visits) =>
        WalkInside(kind, buf, native, 0);
        Pieces(Shifted(AllTranslated(buf, native, encoding, visits), at))
  }

  function WriteData(stype: Word, d: Data, native: nat, encoding: nat, at: nat): Writing {
    if d.size == 0 then Pieces([])
    else
      match d.buf
      case None => Refused(NullBuffer)
      case Some(buf) =>
        if DataSize(stype, d).None? then Refused(Untranslatable)
        else Content(d.dtype, buf, native, encoding, at + d.off)
  }

  /** One writing after the other, as long as none is refused. */
  function Join(ws: seq<Writing>): Writing {
    if ws == [] then Pieces([]) else Then(ws[0], Join(ws[1..]))
  }

  function BufferWritings(stype: Word, ds: seq<Data>, native: nat, encoding: nat, at: nat): (ws: seq<Writing>)
    ensures |ws| == |ds|
  {
    seq(|ds|, k requires 0 <= k < |ds| => WriteData(stype, ds[k], native, encoding, at))
  }

  function WriteSection(s: Section, index: nat, native: nat, encoding: nat, shoff: nat): Writing {
    Then(Pieces([Piece(shoff + ShdrBytes(index), StoreShdr(s.shdr, encoding))]),
         if index == SHN_UNDEF || !OnDisk(s.shdr) then Pieces([])
         else Join(BufferWritings(s.shdr.stype, s.data, native, encoding, s.shdr.offset)))
  }

  function SectionWritings(ss: seq<Section>, native: nat, encoding: nat, shoff: nat): (ws: seq<Writing>)
    ensures |ws| == |ss|
  {
    seq(|ss|, i requires 0 <= i < |ss| => WriteSection(ss[i], i, native, encoding, shoff))
  }

  function StorePhdrs(hs: seq<Phdr>, encoding: nat): (b: seq<byte>)
    ensures |b| == PhdrBytes(|hs|)
  {
    if hs == [] then [] else StorePhdr(hs[0], encoding) + StorePhdrs(hs[1..], encoding)
  }

  function WriteHeaders(f: File): seq<Piece> {
    var encoding := f.ehdr.ident[EI_DATA];
    [Piece(0, StoreEhdr(f.ehdr, encoding))]
    + if |f.phdrs| == 0 then [] else [Piece(f.ehdr.phoff, StorePhdrs(f.phdrs, encoding))]
  }

  function WriteFile(f: File): Writing {
    Then(Pieces(WriteHeaders(f)), Join(SectionWritings(f.sections, f.native, f.ehdr.ident[EI_DATA], f.ehdr.shoff)))
  }
}
