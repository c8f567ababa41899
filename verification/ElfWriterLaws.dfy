/**
 Where the pieces of a written file lie, and that later pieces leave earlier ones alone.
 */
module ElfWriterLaws {
  import opened Basics
  import opened ElfTypes
  import opened ElfCoding
  import opened ElfPatches
  import opened ElfVersions
  import opened ElfLayout
  import opened ElfLayoutLaws
  import opened ElfWriter

  // ----- Regions -----

  predicate Within(ps: seq<Piece>, lo: nat, hi: nat) {
    forall k {:trigger ps[k]} :: 0 <= k < |ps| ==> lo <= ps[k].at && ps[k].at + |ps[k].bytes| <= hi
  }

  /** No piece reaches into the bytes from `lo` to `hi`. */
  predicate Clear(ps: seq<Piece>, lo: nat, hi: nat) {
    forall k {:trigger ps[k]} :: 0 <= k < |ps| ==> ps[k].at + |ps[k].bytes| <= lo || hi <= ps[k].at
  }

  lemma {:induction false} ClearStays(b: seq<byte>, ps: seq<Piece>, lo: nat, hi: nat)
    requires Fits(ps, |b|) && Clear(ps, lo, hi) && lo <= hi <= |b|
    ensures PatchAll(b, ps)[lo..hi] == b[lo..hi]
  {
    var p := Piece(lo, b[lo..hi]);
    assert forall k {:trigger ps[k]} :: 0 <= k < |ps| ==> Compatible(p, ps[k]);
    StillHolds(b, ps, p);
  }

  /** Writing `mine` in the middle: what is in its region in the end does not depend on what follows. */
  lemma MiddleStays(b: seq<byte>, pre: seq<Piece>, mine: seq<Piece>, post: seq<Piece>, lo: nat, hi: nat)
    returns (before: seq<byte>)
    requires Fits(pre + mine + post, |b|) && Clear(post, lo, hi) && lo <= hi <= |b|
    ensures |before| == |b| && Fits(mine, |b|)
    ensures PatchAll(b, pre + mine + post)[lo..hi] == PatchAll(before, mine)[lo..hi]
  {
    FitsParts(pre + mine, post, |b|);
    FitsParts(pre, mine, |b|);
    before := PatchAll(b, pre);
    PatchAppend(b, pre + mine, post);
    PatchAppend(b, pre, mine);
    ClearStays(PatchAll(before, mine), post, lo, hi);
  }

  /** A piece is there in the end if no later one touches it. */
  lemma PieceWritten(b: seq<byte>, pre: seq<Piece>, p: Piece, post: seq<Piece>, end: nat)
    requires Fits(pre + [p] + post, |b|) && end == p.at + |p.bytes| && Clear(post, p.at, end)
    ensures end <= |b| && PatchAll(b, pre + [p] + post)[p.at..end] == p.bytes
  {
    FitsParts(pre + [p], post, |b|);
    JustWritten(b, pre, p);
    PatchAppend(b, pre + [p], post);
    PieceStays(PatchAll(b, pre + [p]), p, post, end);
  }

  lemma PieceStays(b: seq<byte>, p: Piece, post: seq<Piece>, end: nat)
    requires Holds(b, p) && Fits(post, |b|) && end == p.at + |p.bytes| && Clear(post, p.at, end)
    ensures end <= |b| && PatchAll(b, post)[p.at..end] == p.bytes
  {
    ClearIsCompatible(p, post);
    StillHolds(b, post, p);
  }

  lemma JustWritten(b: seq<byte>, pre: seq<Piece>, p: Piece)
    requires Fits(pre + [p], |b|)
    ensures Holds(PatchAll(b, pre + [p]), p)
  {
    FitsParts(pre, [p], |b|);
    assert [p][0] == p;
    PatchLast(b, pre, p);
  }

  lemma ClearIsCompatible(p: Piece, ps: seq<Piece>)
    requires Clear(ps, p.at, p.at + |p.bytes|)
    ensures forall k {:trigger ps[k]} :: 0 <= k < |ps| ==> Compatible(p, ps[k])
  {
  }

  /** A header is there in the end if neither its section's data nor later sections touch it. */
  lemma HeaderStays(b: seq<byte>, pre: seq<Piece>, p: Piece, data: seq<Piece>, post: seq<Piece>, end: nat)
    requires Fits(pre + ([p] + data) + post, |b|) && end == p.at + |p.bytes|
    requires Clear(data, p.at, end) && Clear(post, p.at, end)
    ensures end <= |b| && PatchAll(b, pre + ([p] + data) + post)[p.at..end] == p.bytes
  {
    ClearSum(data, post, p.at, end);
    Bracket(pre, p, data, post);
    PieceWritten(b, pre, p, data + post, end);
  }

  lemma FitsSum(ps: seq<Piece>, qs: seq<Piece>, n: nat)
    requires Within(ps, 0, n) && Within(qs, 0, n)
    ensures Fits(ps + qs, n)
  {
  }

  lemma WithinMore(ps: seq<Piece>, lo: nat, hi: nat, lo': nat, hi': nat)
    requires Within(ps, lo, hi) && lo' <= lo && hi <= hi'
    ensures Within(ps, lo', hi')
  {
  }

  lemma BehindIsClear(ps: seq<Piece>, lo: nat, hi: nat, end: nat)
    requires Within(ps, hi, end)
    ensures Clear(ps, lo, hi)
  {
  }

  lemma ClearSum(ps: seq<Piece>, qs: seq<Piece>, lo: nat, hi: nat)
    requires Clear(ps, lo, hi) && Clear(qs, lo, hi)
    ensures Clear(ps + qs, lo, hi)
  {
  }

  lemma FitsParts(ps: seq<Piece>, qs: seq<Piece>, n: nat)
    requires Fits(ps + qs, n)
    ensures Fits(ps, n) && Fits(qs, n)
  {
    assert forall k {:trigger ps[k]} :: 0 <= k < |ps| ==> ps[k] == (ps + qs)[k];
    assert forall k {:trigger qs[k]} :: 0 <= k < |qs| ==> qs[k] == (ps + qs)[|ps| + k];
  }

  // ----- Contents -----

  lemma SizesAgree(t: ElfType)
    requires Fields(t) != []
    ensures FileSize(t) == Size(Fields(t)) > 0
  {
    EhdrSize();
    HeaderSizes();
    if t.TSym? {
      SizeOfSum([4, 4, 4], [1, 1, 2]);
      assert Fields(t) == [4, 4, 4] + [1, 1, 2];
    }
  }

  predicate WellSized(d: Data) {
    d.buf.Some? ==> |d.buf.value| == d.size
  }

  lemma FileSizeOfContent(stype: Word, d: Data, native: nat, encoding: nat)
    requires stype != SHT_NOBITS && WellSized(d) && d.buf.Some? && DataSize(stype, d).Some? && KindOf(d.dtype).None?
    ensures |RecodeArray(d.buf.value, Fields(d.dtype), native, encoding)| == DataSize(stype, d).value
  {
    if Fields(d.dtype) != [] {
      SizesAgree(d.dtype);
    }
  }

  lemma DataWithin(stype: Word, d: Data, native: nat, encoding: nat, at: nat)
    requires stype != SHT_NOBITS && WellSized(d) && DataSize(stype, d).Some?
             && WriteData(stype, d, native, encoding, at).Pieces?
    ensures Within(WriteData(stype, d, native, encoding, at).ps, at + d.off, at + d.off + DataSize(stype, d).value)
  {
    if d.size > 0 {
      var buf := d.buf.value;
      if KindOf(d.dtype).None? {
        FileSizeOfContent(stype, d, native, encoding);
      } else {
        WalkInside(KindOf(d.dtype).value, buf, native, 0);
      }
    }
  }

  predicate AllWellSized(ds: seq<Data>) {
    forall k {:trigger ds[k]} :: 0 <= k < |ds| ==> WellSized(ds[k])
  }

  // ----- Writings in a row -----

  lemma {:induction false} JoinAll(ws: seq<Writing>)
    ensures Join(ws).Pieces? <==> forall k :: 0 <= k < |ws| ==> ws[k].Pieces?
  {
    if ws != [] {
      JoinAll(ws[1..]);
      assert (forall k :: 0 <= k < |ws| ==> ws[k].Pieces?)
             <==> ws[0].Pieces? && forall k :: 0 <= k < |ws[1..]| ==> ws[1..][k].Pieces? by {
        assert forall k :: 0 < k < |ws| ==> ws[k] == ws[1..][k - 1];
      }
    }
  }

  /** The pieces of writing `i`, with those of the later writings behind them. */
  lemma {:induction false} JoinSplit(ws: seq<Writing>, i: nat)
    returns (pre: seq<Piece>, mine: seq<Piece>, post: seq<Piece>)
    requires Join(ws).Pieces? && i < |ws|
    ensures ws[i] == Pieces(mine) && Join(ws[i + 1..]) == Pieces(post) && Join(ws) == Pieces(pre + mine + post)
    decreases i
  {
    var first, rest := ws[0].ps, Join(ws[1..]).ps;
    if i == 0 {
      pre, mine, post := [], first, rest;
      Regroup(mine, post, [], []);
    } else {
      assert ws[1..][i..] == ws[i + 1..];
      pre, mine, post := JoinSplit(ws[1..], i - 1);
      Regroup(first, pre, mine, post);
      pre := first + pre;
    }
  }

  /** Every piece lies between `lo` and `hi` or between `from` and `top`. */
  predicate Spread(ps: seq<Piece>, lo: nat, hi: nat, from: nat, top: nat) {
    forall k {:trigger ps[k]} :: 0 <= k < |ps| ==>
      || (lo <= ps[k].at && ps[k].at + |ps[k].bytes| <= hi)
      || (from <= ps[k].at && ps[k].at + |ps[k].bytes| <= top)
  }

  lemma {:induction false} JoinSpread(ws: seq<Writing>, lo: nat, hi: nat, from: nat, top: nat)
    requires Join(ws).Pieces?
    requires forall k {:trigger ws[k]} :: 0 <= k < |ws| ==> ws[k].Pieces? && Spread(ws[k].ps, lo, hi, from, top)
    ensures Spread(Join(ws).ps, lo, hi, from, top)
  {
    if ws != [] {
      JoinSpread(ws[1..], lo, hi, from, top);
    }
  }

  // ----- Buffers -----

  lemma {:induction false} InOrderApart(stype: Word, ds: seq<Data>, from: nat, to: nat, j: nat, k: nat)
    requires InOrder(stype, ds, from, to) && j < k < |ds|
    ensures DataSize(stype, ds[j]).Some? && ds[j].off + DataSize(stype, ds[j]).value <= ds[k].off
  {
    var next := ds[0].off + DataSize(stype, ds[0]).value;
    if j == 0 {
      InOrderAt(stype, ds[1..], next, to, k - 1);
    } else {
      InOrderApart(stype, ds[1..], next, to, j - 1, k - 1);
    }
  }

  lemma NthBufferSpread(stype: Word, ds: seq<Data>, native: nat, encoding: nat, at: nat, to: nat, n: nat, from: nat)
    requires stype != SHT_NOBITS && InOrder(stype, ds, 0, to) && AllWellSized(ds) && n < |ds| && from <= ds[n].off
    requires BufferWritings(stype, ds, native, encoding, at)[n].Pieces?
    ensures Spread(BufferWritings(stype, ds, native, encoding, at)[n].ps, at + from, at + to, at + from, at + to)
  {
    InOrderAt(stype, ds, 0, to, n);
    DataWithin(stype, ds[n], native, encoding, at);
  }

  /** All pieces of the buffers from `k` on are behind the earlier buffers. */
  lemma BuffersSpread(stype: Word, ds: seq<Data>, native: nat, encoding: nat, at: nat, to: nat, k: nat, from: nat)
    requires stype != SHT_NOBITS && InOrder(stype, ds, 0, to) && AllWellSized(ds) && k <= |ds|
    requires Join(BufferWritings(stype, ds, native, encoding, at)[k..]).Pieces?
    requires forall j {:trigger ds[j]} :: k <= j < |ds| ==> from <= ds[j].off
    ensures Spread(Join(BufferWritings(stype, ds, native, encoding, at)[k..]).ps, at + from, at + to, at + from,
            at + to)
  {
    var ws := BufferWritings(stype, ds, native, encoding, at)[k..];
    JoinAll(ws);
    forall j {:trigger ws[j]} | 0 <= j < |ws|
      ensures Spread(ws[j].ps, at + from, at + to, at + from, at + to)
    {
      assert ws[j].Pieces?;
      NthBufferSpread(stype, ds, native, encoding, at, to, k + j, from);
    }
    JoinSpread(ws, at + from, at + to, at + from, at + to);
  }

  /** The pieces of buffer `k` among those of its section, all later ones behind it. */
  lemma SplitBuffers(stype: Word, ds: seq<Data>, native: nat, encoding: nat, at: nat, to: nat, k: nat)
    returns (pre: seq<Piece>, mine: seq<Piece>, post: seq<Piece>)
    requires stype != SHT_NOBITS && InOrder(stype, ds, 0, to) && AllWellSized(ds) && k < |ds|
    requires Join(BufferWritings(stype, ds, native, encoding, at)).Pieces?
    ensures WriteData(stype, ds[k], native, encoding, at) == Pieces(mine) && DataSize(stype, ds[k]).Some?
    ensures Join(BufferWritings(stype, ds, native, encoding, at)) == Pieces(pre + mine + post)
    ensures var end := at + ds[k].off + DataSize(stype, ds[k]).value;
            end <= at + to && Spread(post, end, at + to, end, at + to)
  {
    pre, mine, post := JoinSplit(BufferWritings(stype, ds, native, encoding, at), k);
    InOrderAt(stype, ds, 0, to, k);
    var end := ds[k].off + DataSize(stype, ds[k]).value;
    forall j {:trigger ds[j]} | k + 1 <= j < |ds|
      ensures end <= ds[j].off
    {
      InOrderApart(stype, ds, 0, to, k, j);
    }
    BuffersSpread(stype, ds, native, encoding, at, to, k + 1, end);
  }

  // ----- Sections -----

  /** The data of a section that is in the file lies in order between `lo` and `hi`. */
  predicate Situated(s: Section, index: nat, lo: nat, hi: nat) {
    Filed(s, index) ==>
      && lo <= s.shdr.offset && s.shdr.offset + s.shdr.size <= hi
      && InOrder(s.shdr.stype, s.data, 0, s.shdr.size) && AllWellSized(s.data)
  }

  lemma SectionSpread(s: Section, index: nat, native: nat, encoding: nat, shoff: nat, lo: nat, hi: nat, from: nat,
                      top: nat)
    requires Situated(s, index, lo, hi) && WriteSection(s, index, native, encoding, shoff).Pieces?
    requires from <= shoff + ShdrBytes(index) && shoff + ShdrBytes(index + 1) <= top
    ensures Spread(WriteSection(s, index, native, encoding, shoff).ps, lo, hi, from, top)
  {
    if Filed(s, index) {
      BuffersSpread(s.shdr.stype, s.data, native, encoding, s.shdr.offset, s.shdr.size, 0, 0);
      var ws := BufferWritings(s.shdr.stype, s.data, native, encoding, s.shdr.offset);
      assert ws[0..] == ws;
    }
  }

  lemma NthSpread(ss: seq<Section>, native: nat, encoding: nat, shoff: nat, n: nat, lo: nat, hi: nat, from: nat,
                  top: nat)
    requires n < |ss| && Situated(ss[n], n, lo, hi) && SectionWritings(ss, native, encoding, shoff)[n].Pieces?
    requires from <= shoff + ShdrBytes(n) && top == shoff + ShdrBytes(|ss|)
    ensures Spread(SectionWritings(ss, native, encoding, shoff)[n].ps, lo, hi, from, top)
  {
    SectionSpread(ss[n], n, native, encoding, shoff, lo, hi, from, top);
  }

  /** All pieces of the sections from `i` on: their headers, and data between `lo` and `hi`. */
  lemma SectionsSpread(ss: seq<Section>, native: nat, encoding: nat, shoff: nat, i: nat, lo: nat, hi: nat, from: nat,
                       top: nat)
    requires i <= |ss| && Join(SectionWritings(ss, native, encoding, shoff)[i..]).Pieces?
    requires from == shoff + ShdrBytes(i) && top == shoff + ShdrBytes(|ss|)
    requires forall j {:trigger ss[j]} :: i <= j < |ss| ==> Situated(ss[j], j, lo, hi)
    ensures Spread(Join(SectionWritings(ss, native, encoding, shoff)[i..]).ps, lo, hi, from, top)
  {
    var ws := SectionWritings(ss, native, encoding, shoff)[i..];
    JoinAll(ws);
    forall j {:trigger ws[j]} | 0 <= j < |ws|
      ensures Spread(ws[j].ps, lo, hi, from, top)
    {
      assert ws[j].Pieces?;
      NthSpread(ss, native, encoding, shoff, i + j, lo, hi, from, top);
    }
    JoinSpread(ws, lo, hi, from, top);
  }

  // ----- Contents that can be read back -----

  /** Reading the bytes `r` of a written buffer back gives the buffer; for version records, the same
      records and their contents. */
  ghost predicate Restores(r: seq<byte>, d: Data, encoding: nat, native: nat)
    requires d.buf.Some?
  {
    var buf := d.buf.value;
    match KindOf(d.dtype)
    case None => |r| <= |buf| && RecodeArray(r, Fields(d.dtype), encoding, native) == buf[..|r|]
    case Some(kind) =>
      && |r| == |buf| && Walk(kind, buf, native, 0).Walked?
      && var visits := Walk(kind, buf, native, 0).visits;
         && AllInside(visits, |buf|)
         && (Agreeing(buf, native, encoding, visits) ==> VersionsRestored(kind, r, buf, encoding, native))
  }

  ghost predicate VersionsRestored(kind: RecordKind, r: seq<byte>, buf: seq<byte>, encoding: nat, native: nat)
    requires Sound(kind) && |r| == |buf| && Walk(kind, buf, native, 0).Walked?
  {
    var visits := Walk(kind, buf, native, 0).visits;
    && Walk(kind, r, encoding, 0) == Walked(visits) && AllInside(visits, |r|)
    && forall k :: 0 <= k < |visits| ==>
         Bytes(PatchAll(r, AllTranslated(r, encoding, native, visits)), visits[k]) == Bytes(buf, visits[k])
  }

  lemma ArrayRestored(stype: Word, d: Data, native: nat, encoding: nat, at: nat, before: seq<byte>, mine: seq<Piece>,
                      lo: nat, hi: nat, r: seq<byte>)
    requires stype != SHT_NOBITS && WellSized(d) && d.size > 0
             && WriteData(stype, d, native, encoding, at) == Pieces(mine)
    requires Fits(mine, |before|) && KindOf(d.dtype).None? && DataSize(stype, d).Some?
    requires lo == at + d.off && hi == lo + DataSize(stype, d).value && hi <= |before|
             && r == PatchAll(before, mine)[lo..hi]
    ensures d.buf.Some? && Restores(r, d, encoding, native)
  {
    var bytes := RecodeArray(d.buf.value, Fields(d.dtype), native, encoding);
    var p := Piece(lo, bytes);
    assert mine == [p] && mine[0] == p;
    FileSizeOfContent(stype, d, native, encoding);
    PatchLast(before, [], p);
    assert [] + [p] == [p];
    assert r == bytes;
    ArrayRecodedBack(d.buf.value, Fields(d.dtype), native, encoding);
  }

  lemma RecordsRestored(stype: Word, d: Data, native: nat, encoding: nat, at: nat, before: seq<byte>, mine: seq<Piece>,
                        lo: nat, hi: nat, r: seq<byte>)
    requires stype != SHT_NOBITS && WellSized(d) && d.size > 0
             && WriteData(stype, d, native, encoding, at) == Pieces(mine)
    requires Fits(mine, |before|) && KindOf(d.dtype).Some? && DataSize(stype, d).Some?
    requires lo == at + d.off && hi == lo + DataSize(stype, d).value && hi <= |before|
             && r == PatchAll(before, mine)[lo..hi]
    ensures d.buf.Some? && Restores(r, d, encoding, native)
  {
    var kind, buf := KindOf(d.dtype).value, d.buf.value;
    var visits := Walk(kind, buf, native, 0).visits;
    WalkInside(kind, buf, native, 0);
    AllShifted(before, AllTranslated(buf, native, encoding, visits), lo, hi);
    VersionsRoundTrip(kind, buf, native, encoding, before[lo..hi], r);
  }

  lemma ContentRestored(stype: Word, d: Data, native: nat, encoding: nat, at: nat, before: seq<byte>, mine: seq<Piece>,
                        lo: nat, hi: nat, r: seq<byte>)
    requires stype != SHT_NOBITS && WellSized(d) && d.size > 0
             && WriteData(stype, d, native, encoding, at) == Pieces(mine)
    requires Fits(mine, |before|) && DataSize(stype, d).Some?
    requires lo == at + d.off && hi == lo + DataSize(stype, d).value && hi <= |before|
             && r == PatchAll(before, mine)[lo..hi]
    ensures d.buf.Some? && Restores(r, d, encoding, native)
  {
    if KindOf(d.dtype).None? {
      ArrayRestored(stype, d, native, encoding, at, before, mine, lo, hi, r);
    } else {
      RecordsRestored(stype, d, native, encoding, at, before, mine, lo, hi, r);
    }
  }
}
