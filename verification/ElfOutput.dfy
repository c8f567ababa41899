/**
 Writing an open ELF file into a buffer of the length that its layout gave.
 */
module ElfOutput {
  import opened Basics
  import opened ElfTypes
  import opened ElfCoding
  import opened ElfPatches
  import opened ElfLayout
  import opened ElfLayoutLaws
  import opened ElfLayoutAgain
  import opened ElfWriter
  import opened ElfWriterLaws
  import opened ElfUpdate

  // ----- Room for every piece -----

  predicate BuffersRoomy(stype: Word, ds: seq<Data>, at: nat, len: nat) {
    forall k {:trigger ds[k]} :: 0 <= k < |ds| ==>
      WellSized(ds[k]) && (DataSize(stype, ds[k]).Some? ==> at + ds[k].off + DataSize(stype, ds[k]).value <= len)
  }

  predicate SectionRoomy(s: Section, i: nat, len: nat) {
    Filed(s, i) ==> BuffersRoomy(s.shdr.stype, s.data, s.shdr.offset, len)
  }

  /** Everything that a write may put into a buffer of `len` bytes fits into it. */
  ghost predicate Roomy(f: File, len: nat) {
    && EHDR_SIZE <= len
    && (|f.phdrs| > 0 ==> f.ehdr.phoff + PhdrBytes(|f.phdrs|) <= len)
    && (|f.sections| > 0 ==> f.ehdr.shoff + ShdrBytes(|f.sections|) <= len)
    && forall i {:trigger f.sections[i]} :: 0 <= i < |f.sections| ==> SectionRoomy(f.sections[i], i, len)
  }

  // ----- Loop steps -----

  lemma JoinStep(done: seq<Piece>, ws: seq<Writing>, i: nat, i': nat)
    requires i < |ws| && i' == i + 1
    ensures ws[i].Pieces? ==> Then(Pieces(done), Join(ws[i..])) == Then(Pieces(done + ws[i].ps), Join(ws[i'..]))
    ensures ws[i].Refused? ==> Then(Pieces(done), Join(ws[i..])) == ws[i]
  {
    assert ws[i..][1..] == ws[i'..];
    var rest := Join(ws[i'..]);
    if ws[i].Pieces? && rest.Pieces? {
      assert done + (ws[i].ps + rest.ps) == done + ws[i].ps + rest.ps;
    }
  }

  lemma JoinStart(ws: seq<Writing>)
    ensures Then(Pieces([]), Join(ws)) == Join(ws)
  {
    if Join(ws).Pieces? {
      assert [] + Join(ws).ps == Join(ws).ps;
    }
  }

  lemma PatchMore(b: seq<byte>, done: seq<Piece>, ps: seq<Piece>)
    requires Fits(done, |b|) && Fits(ps, |b|)
    ensures Fits(done + ps, |b|) && PatchAll(b, done + ps) == PatchAll(PatchAll(b, done), ps)
  {
    PatchAppend(b, done, ps);
  }

  lemma WithinFits(ps: seq<Piece>, lo: nat, hi: nat, len: nat)
    requires Within(ps, lo, hi) && hi <= len
    ensures Fits(ps, len)
  {
  }

  lemma DataFits(stype: Word, d: Data, native: nat, encoding: nat, at: nat, len: nat)
    requires stype != SHT_NOBITS && WellSized(d)
             && (DataSize(stype, d).Some? ==> at + d.off + DataSize(stype, d).value <= len)
    requires WriteData(stype, d, native, encoding, at).Pieces?
    ensures Fits(WriteData(stype, d, native, encoding, at).ps, len)
  {
    if d.size > 0 {
      DataWithin(stype, d, native, encoding, at);
      WithinFits(WriteData(stype, d, native, encoding, at).ps, at + d.off, at + d.off + DataSize(stype, d).value, len);
    }
  }

  method PutAll(a: array<byte>, ps: seq<Piece>)
    requires Fits(ps, a.Length)
    modifies a
    ensures a[..] == PatchAll(old(a[..]), ps)
  {
    var k := 0;
    ghost var rest := ps;
    while k < |ps|
      invariant 0 <= k <= |ps| && rest == ps[k..] && Fits(rest, a.Length)
      invariant PatchAll(a[..], rest) == PatchAll(old(a[..]), ps)
    {
      Put(a, ps[k].at, ps[k].bytes);
      rest := rest[1..];
      k := k + 1;
    }
  }

  /** What writing `w` into a buffer does. */
  predicate Performed(w: Writing, error: Option<WriteError>, before: seq<byte>, after: seq<byte>) {
    match w
    case Refused(e) => error == Some(e)
    case Pieces(ps) => error == None && Fits(ps, |before|) && after == PatchAll(before, ps)
  }

  method WriteBuffers(a: array<byte>, stype: Word, data: seq<Data>, native: nat, encoding: nat, at: nat)
    returns (error: Option<WriteError>)
    requires stype != SHT_NOBITS && BuffersRoomy(stype, data, at, a.Length)
    modifies a
    ensures Performed(Join(BufferWritings(stype, data, native, encoding, at)), error, old(a[..]), a[..])
  {
    ghost var ws := BufferWritings(stype, data, native, encoding, at);
    ghost var done := [];
    var k := 0;
    error := None;
    JoinStart(ws);
    assert ws[0..] == ws;
    while k < |data|
      invariant 0 <= k <= |data| && Fits(done, a.Length) && error == None
      invariant a[..] == PatchAll(old(a[..]), done)
      invariant Then(Pieces(done), Join(ws[k..])) == Join(ws)
    {
      var w, k' := WriteData(stype, data[k], native, encoding, at), k + 1;
      JoinStep(done, ws, k, k');
      if w.Refused? {
        return Some(w.error);
      }
      DataFits(stype, data[k], native, encoding, at, a.Length);
      PutAll(a, w.ps);
      PatchMore(old(a[..]), done, w.ps);
      done := done + w.ps;
      k := k';
    }
    assert done + [] == done;
  }

  method WriteOneSection(a: array<byte>, s: Section, i: nat, native: nat, encoding: nat, shoff: nat)
    returns (error: Option<WriteError>)
    requires SectionRoomy(s, i, a.Length) && shoff + ShdrBytes(i) + SHDR_SIZE <= a.Length
    modifies a
    ensures Performed(WriteSection(s, i, native, encoding, shoff), error, old(a[..]), a[..])
  {
    var p := Piece(shoff + ShdrBytes(i), StoreShdr(s.shdr, encoding));
    Put(a, p.at, p.bytes);
    PatchLast(old(a[..]), [], p);
    assert [] + [p] == [p];
    if i == SHN_UNDEF || !OnDisk(s.shdr) {
      assert [p] + [] == [p];
      return None;
    }
    error := WriteBuffers(a, s.shdr.stype, s.data, native, encoding, s.shdr.offset);
    ghost var w := Join(BufferWritings(s.shdr.stype, s.data, native, encoding, s.shdr.offset));
    if w.Pieces? {
      PatchMore(old(a[..]), [p], w.ps);
    }
  }

  method WriteAllSections(a: array<byte>, ss: seq<Section>, native: nat, encoding: nat, shoff: nat)
    returns (error: Option<WriteError>)
    requires forall i {:trigger ss[i]} :: 0 <= i < |ss| ==> SectionRoomy(ss[i], i, a.Length)
    requires |ss| > 0 ==> shoff + ShdrBytes(|ss|) <= a.Length
    modifies a
    ensures Performed(Join(SectionWritings(ss, native, encoding, shoff)), error, old(a[..]), a[..])
  {
    ghost var ws := SectionWritings(ss, native, encoding, shoff);
    ghost var done := [];
    var i := 0;
    error := None;
    JoinStart(ws);
    assert ws[0..] == ws;
    while i < |ss|
      invariant 0 <= i <= |ss| && Fits(done, a.Length) && error == None
      invariant a[..] == PatchAll(old(a[..]), done)
      invariant Then(Pieces(done), Join(ws[i..])) == Join(ws)
    {
      var i' := i + 1;
      JoinStep(done, ws, i, i');
      error := WriteOneSection(a, ss[i], i, native, encoding, shoff);
      if error.Some? {
        return;
      }
      PatchMore(old(a[..]), done, ws[i].ps);
      done := done + ws[i].ps;
      i := i';
    }
    assert done + [] == done;
  }

  method WriteFileHeaders(elf: ElfFile, a: array<byte>)
    requires Roomy(elf.State(), a.Length)
    modifies a
    ensures Fits(WriteHeaders(elf.State()), a.Length) && a[..] == PatchAll(old(a[..]), WriteHeaders(elf.State()))
  {
    var encoding := elf.ehdr.ident[EI_DATA];
    var p := Piece(0, StoreEhdr(elf.ehdr, encoding));
    Put(a, 0, p.bytes);
    PatchLast(old(a[..]), [], p);
    assert [] + [p] == [p];
    if |elf.phdrs| > 0 {
      var q := Piece(elf.ehdr.phoff, StorePhdrs(elf.phdrs, encoding));
      Put(a, q.at, q.bytes);
      PatchLast(old(a[..]), [p], q);
    } else {
      assert [p] + [] == [p];
    }
  }

  /** Writes the file into `a`; afterwards nothing of it is dirty any more. */
  method Write(elf: ElfFile, a: array<byte>) returns (error: Option<WriteError>)
    requires Roomy(elf.State(), a.Length)
    modifies a, elf`sections, elf`elfDirty, elf`ehdrDirty, elf`phdrDirty
    ensures Performed(WriteFile(old(elf.State())), error, old(a[..]), a[..])
    ensures elf.State() == if error.None? then Clean(old(elf.State())) else old(elf.State())
  {
    ghost var f := elf.State();
    WriteFileHeaders(elf, a);
    error := WriteAllSections(a, elf.sections, elf.native, elf.ehdr.ident[EI_DATA], elf.ehdr.shoff);
    ghost var w := Join(SectionWritings(f.sections, f.native, f.ehdr.ident[EI_DATA], f.ehdr.shoff));
    if w.Pieces? {
      PatchMore(old(a[..]), WriteHeaders(f), w.ps);
    }
    if error.None? {
      ClearDirty(elf);
    }
  }

  method ClearDirty(elf: ElfFile)
    modifies elf`sections, elf`elfDirty, elf`ehdrDirty, elf`phdrDirty
    ensures elf.State() == Clean(old(elf.State()))
  {
    elf.elfDirty, elf.ehdrDirty, elf.phdrDirty := false, false, false;
    var i := 0;
    while i < |elf.sections|
      modifies elf`sections
      invariant 0 <= i <= |elf.sections| == |old(elf.sections)|
      invariant forall j :: 0 <= j < i ==> elf.sections[j] == CleanSection(old(elf.sections)[j])
      invariant forall j :: i <= j < |elf.sections| ==> elf.sections[j] == old(elf.sections)[j]
      decreases |elf.sections| - i
    {
      elf.sections := elf.sections[i := CleanSection(elf.sections[i])];
      i := i + 1;
    }
    assert elf.sections == CleanSections(old(elf.sections));
  }
}
