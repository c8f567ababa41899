/**
 Writing a laid out file and reading it back.
 */
module ElfRoundTrip {
  import opened Basics
  import opened ElfTypes
  import opened ElfCoding
  import opened ElfPatches
  import opened ElfLayout
  import opened ElfLayoutLaws
  import opened ElfWriter
  import opened ElfWriterLaws

  function Start(f: File): nat {
    EHDR_SIZE + PhdrBytes(|f.phdrs|)
  }

  /** The data of all sections after `i` is at `from` or behind. */
  ghost predicate LaterBehind(f: File, i: nat, from: nat) {
    forall j {:trigger f.sections[j]} :: i < j < |f.sections| && Filed(f.sections[j], j) ==>
        from <= f.sections[j].shdr.offset
  }

  /** The regions of a file of `end` bytes in order: header, program headers, data, section headers. */
  ghost predicate Regular(f: File, end: nat) {
    var m := |f.sections|;
    && (|f.phdrs| > 0 ==> f.ehdr.phoff == EHDR_SIZE)
    && (m == 0 ==> end == Start(f))
    && (m > 0 ==> Start(f) <= f.ehdr.shoff && end == f.ehdr.shoff + ShdrBytes(m))
    && (forall i {:trigger f.sections[i]} :: 0 <= i < m ==> Situated(f.sections[i], i, Start(f), f.ehdr.shoff))
    && (forall i :: 0 <= i < m && Filed(f.sections[i], i) ==>
          LaterBehind(f, i, f.sections[i].shdr.offset + f.sections[i].shdr.size))
  }

  function Enc(f: File): nat {
    f.ehdr.ident[EI_DATA]
  }

  function Writings(f: File): (ws: seq<Writing>)
    ensures |ws| == |f.sections|
  {
    SectionWritings(f.sections, f.native, Enc(f), f.ehdr.shoff)
  }

  lemma FileParts(f: File, ps: seq<Piece>) returns (headers: seq<Piece>, sections: seq<Piece>)
    requires WriteFile(f) == Pieces(ps)
    ensures headers == WriteHeaders(f) && Join(Writings(f)) == Pieces(sections) && ps == headers + sections
  {
    headers, sections := WriteHeaders(f), Join(Writings(f)).ps;
  }

  /** All pieces of the sections lie behind the program headers. */
  lemma SectionPieces(f: File, end: nat, sections: seq<Piece>)
    requires Regular(f, end) && Join(Writings(f)) == Pieces(sections)
    ensures Within(sections, Start(f), end)
  {
    if |f.sections| > 0 {
      SectionsSpread(f.sections, f.native, Enc(f), f.ehdr.shoff, 0, Start(f), f.ehdr.shoff, f.ehdr.shoff, end);
      assert Writings(f)[0..] == Writings(f);
    }
  }

  lemma HeadersWithin(f: File)
    requires |f.phdrs| > 0 ==> f.ehdr.phoff == EHDR_SIZE
    ensures Within(WriteHeaders(f), 0, Start(f)) && Clear(WriteHeaders(f)[1..], 0, EHDR_SIZE)
  {
    var hs := WriteHeaders(f);
    assert hs[0] == Piece(0, StoreEhdr(f.ehdr, Enc(f)));
    if |f.phdrs| > 0 {
      assert |hs| == 2 && hs[1] == Piece(EHDR_SIZE, StorePhdrs(f.phdrs, Enc(f)));
    }
  }

  lemma FileFits(f: File, end: nat, ps: seq<Piece>)
    requires Regular(f, end) && WriteFile(f) == Pieces(ps)
    ensures Fits(ps, end)
  {
    var headers, sections := FileParts(f, ps);
    SectionPieces(f, end, sections);
    HeadersWithin(f);
    WithinMore(headers, 0, Start(f), 0, end);
    WithinMore(sections, Start(f), end, 0, end);
    FitsSum(headers, sections, end);
  }

  // ----- What the written file contains -----

  lemma EhdrFirst(f: File, end: nat, ps: seq<Piece>) returns (p: Piece, phdrs: seq<Piece>, sections: seq<Piece>)
    requires Regular(f, end) && WriteFile(f) == Pieces(ps)
    ensures p == Piece(0, StoreEhdr(f.ehdr, Enc(f))) && ps == [] + ([p] + phdrs) + sections
    ensures Clear(phdrs, 0, EHDR_SIZE) && Clear(sections, 0, EHDR_SIZE)
  {
    var headers;
    headers, sections := FileParts(f, ps);
    SectionPieces(f, end, sections);
    p, phdrs := headers[0], headers[1..];
    HeadersWithin(f);
    BehindIsClear(sections, 0, Start(f), end);
    Bracket([], p, [p] + phdrs, sections);
  }

  lemma EhdrWritten(f: File, b: seq<byte>, ps: seq<Piece>)
    requires Regular(f, |b|) && WriteFile(f) == Pieces(ps) && Fits(ps, |b|)
    ensures |b| >= EHDR_SIZE && PatchAll(b, ps)[..EHDR_SIZE] == StoreEhdr(f.ehdr, Enc(f))
  {
    var p, phdrs, sections := EhdrFirst(f, |b|, ps);
    HeaderStays(b, [], p, phdrs, sections, EHDR_SIZE);
  }

  lemma PhdrsWritten(f: File, b: seq<byte>, ps: seq<Piece>)
    requires Regular(f, |b|) && WriteFile(f) == Pieces(ps) && Fits(ps, |b|) && |f.phdrs| > 0
    ensures |b| >= Start(f) && PatchAll(b, ps)[EHDR_SIZE..Start(f)] == StorePhdrs(f.phdrs, Enc(f))
  {
    var headers, sections := FileParts(f, ps);
    SectionPieces(f, |b|, sections);
    assert headers == [headers[0]] + [headers[1]];
    PieceWritten(b, [headers[0]], headers[1], sections, Start(f));
  }

  /** The pieces of section `i`; those behind them are later headers and data behind `from`. */
  lemma SplitAt(f: File, end: nat, ps: seq<Piece>, i: nat, from: nat, after: nat)
    returns (pre: seq<Piece>, mine: seq<Piece>, post: seq<Piece>)
    requires Regular(f, end) && WriteFile(f) == Pieces(ps) && i < |f.sections|
    requires LaterBehind(f, i, from) && after == f.ehdr.shoff + ShdrBytes(i + 1)
    ensures WriteSection(f.sections[i], i, f.native, Enc(f), f.ehdr.shoff) == Pieces(mine)
    ensures ps == pre + mine + post
    ensures Spread(post, from, f.ehdr.shoff, after, end)
  {
    var headers, sections := FileParts(f, ps);
    pre, mine, post := JoinSplit(Writings(f), i);
    Regroup(headers, pre, mine, post);
    pre := headers + pre;
    forall j {:trigger f.sections[j]} | i + 1 <= j < |f.sections|
      ensures Situated(f.sections[j], j, from, f.ehdr.shoff)
    {
    }
    SectionsSpread(f.sections, f.native, Enc(f), f.ehdr.shoff, i + 1, from, f.ehdr.shoff, after, end);
  }

  lemma SpreadIsClear(ps: seq<Piece>, lo: nat, hi: nat, from: nat, top: nat, a: nat, b: nat)
    requires Spread(ps, lo, hi, from, top) && (b <= lo || hi <= a) && b <= from
    ensures Clear(ps, a, b)
  {
  }

  lemma DataIsClear(ps: seq<Piece>, lo: nat, hi: nat, a: nat, b: nat)
    requires Spread(ps, lo, hi, lo, hi) && (b <= lo || hi <= a)
    ensures Clear(ps, a, b)
  {
  }

  lemma SectionParts(s: Section, i: nat, native: nat, encoding: nat, shoff: nat, mine: seq<Piece>, p: Piece)
    returns (data: seq<Piece>)
    requires WriteSection(s, i, native, encoding, shoff) == Pieces(mine)
    requires p == Piece(shoff + ShdrBytes(i), StoreShdr(s.shdr, encoding))
    ensures mine == [p] + data
    ensures Filed(s, i) ==> Join(BufferWritings(s.shdr.stype, s.data, native, encoding, s.shdr.offset)) == Pieces(data)
    ensures !Filed(s, i) ==> data == []
  {
    data := mine[1..];
  }

  lemma DataSpread(s: Section, i: nat, native: nat, encoding: nat, lo: nat, hi: nat, data: seq<Piece>)
    requires Situated(s, i, lo, hi)
    requires Filed(s, i) ==> Join(BufferWritings(s.shdr.stype, s.data, native, encoding, s.shdr.offset)) == Pieces(data)
    requires !Filed(s, i) ==> data == []
    ensures Spread(data, lo, hi, lo, hi)
  {
    if Filed(s, i) {
      var ws := BufferWritings(s.shdr.stype, s.data, native, encoding, s.shdr.offset);
      assert ws[0..] == ws;
      BuffersSpread(s.shdr.stype, s.data, native, encoding, s.shdr.offset, s.shdr.size, 0, 0);
    }
  }

  lemma AllBehindStart(f: File, end: nat, i: nat)
    requires Regular(f, end)
    ensures LaterBehind(f, i, Start(f))
  {
  }

  lemma ShdrAmong(f: File, end: nat, ps: seq<Piece>, i: nat, p: Piece, after: nat)
    returns (pre: seq<Piece>, data: seq<Piece>, post: seq<Piece>)
    requires Regular(f, end) && WriteFile(f) == Pieces(ps) && i < |f.sections|
    requires p == Piece(f.ehdr.shoff + ShdrBytes(i), StoreShdr(f.sections[i].shdr, Enc(f)))
    ensures ps == pre + ([p] + data) + post
    requires after == p.at + SHDR_SIZE
    ensures Clear(data, p.at, after) && Clear(post, p.at, after)
  {
    var s, shoff, mine := f.sections[i], f.ehdr.shoff, [];
    assert after == f.ehdr.shoff + ShdrBytes(i + 1);
    AllBehindStart(f, end, i);
    pre, mine, post := SplitAt(f, end, ps, i, Start(f), after);
    data := SectionParts(s, i, f.native, Enc(f), shoff, mine, p);
    DataSpread(s, i, f.native, Enc(f), Start(f), shoff, data);
    DataIsClear(data, Start(f), shoff, p.at, after);
    SpreadIsClear(post, Start(f), shoff, after, end, p.at, after);
  }

  lemma ShdrWritten(f: File, b: seq<byte>, ps: seq<Piece>, i: nat, at: nat, end: nat)
    requires Regular(f, |b|) && WriteFile(f) == Pieces(ps) && Fits(ps, |b|) && i < |f.sections|
    requires at == f.ehdr.shoff + ShdrBytes(i) && end == at + SHDR_SIZE
    ensures end <= |b| && PatchAll(b, ps)[at..end] == StoreShdr(f.sections[i].shdr, Enc(f))
  {
    var p := Piece(at, StoreShdr(f.sections[i].shdr, Enc(f)));
    var pre, data, post := ShdrAmong(f, |b|, ps, i, p, end);
    HeaderStays(b, pre, p, data, post, end);
  }

  /** Where buffer `k` of section `i` is in the file. */
  ghost predicate LiesAt(f: File, i: nat, k: nat, lo: nat, hi: nat) {
    && i < |f.sections| && k < |f.sections[i].data|
    && var s := f.sections[i];
       var fsize := DataSize(s.shdr.stype, s.data[k]);
       fsize.Some? && lo == s.shdr.offset + s.data[k].off && hi == lo + fsize.value
  }

  /** The pieces of buffer `k` of section `i` among all: nothing behind them touches their region. */
  lemma DataAmong(f: File, end: nat, ps: seq<Piece>, i: nat, k: nat, lo: nat, hi: nat)
    returns (pre: seq<Piece>, mine: seq<Piece>, post: seq<Piece>)
    requires Regular(f, end) && WriteFile(f) == Pieces(ps) && i < |f.sections| && Filed(f.sections[i], i)
    requires LiesAt(f, i, k, lo, hi)
    ensures var s := f.sections[i];
            WriteData(s.shdr.stype, s.data[k], f.native, Enc(f), s.shdr.offset) == Pieces(mine)
    ensures ps == pre + mine + post && Clear(post, lo, hi) && hi <= f.ehdr.shoff <= end
            && WellSized(f.sections[i].data[k])
  {
    var s, shoff, after := f.sections[i], f.ehdr.shoff, f.ehdr.shoff + ShdrBytes(i + 1);
    var behind := s.shdr.offset + s.shdr.size;
    var p := Piece(shoff + ShdrBytes(i), StoreShdr(s.shdr, Enc(f)));
    var pre1, own, post1 := SplitAt(f, end, ps, i, behind, after);
    var data := SectionParts(s, i, f.native, Enc(f), shoff, own, p);
    var pre2, post2;
    pre2, mine, post2 := SplitBuffers(s.shdr.stype, s.data, f.native, Enc(f), s.shdr.offset, s.shdr.size, k);
    Regroup5(pre1, p, pre2, mine, post2, post1);
    pre, post := pre1 + [p] + pre2, post2 + post1;
    DataIsClear(post2, hi, behind, lo, hi);
    SpreadIsClear(post1, behind, shoff, after, end, lo, hi);
    ClearSum(post2, post1, lo, hi);
  }

  lemma DataWritten(f: File, b: seq<byte>, ps: seq<Piece>, i: nat, k: nat, lo: nat, hi: nat)
    requires Regular(f, |b|) && WriteFile(f) == Pieces(ps) && Fits(ps, |b|)
    requires LiesAt(f, i, k, lo, hi) && Filed(f.sections[i], i) && f.sections[i].data[k].size > 0
    ensures hi <= |b| && f.sections[i].data[k].buf.Some?
    ensures Restores(PatchAll(b, ps)[lo..hi], f.sections[i].data[k], Enc(f), f.native)
  {
    var s := f.sections[i];
    var d := s.data[k];
    var pre, mine, post := DataAmong(f, |b|, ps, i, k, lo, hi);
    var before := MiddleStays(b, pre, mine, post, lo, hi);
    ContentRestored(s.shdr.stype, d, f.native, Enc(f), s.shdr.offset, before, mine, lo, hi, PatchAll(b, ps)[lo..hi]);
  }
}
