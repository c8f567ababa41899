/**
 Two chains of version records that do not survive their translation.
 */
module ElfVersionsChains {
  import opened Basics
  import opened ElfTypes
  import opened ElfCoding
  import opened ElfMirrors
  import opened ElfPatches
  import opened ElfVersions
  import opened ElfVersionsXlt
  import opened ElfVersionsOverlap

  function MainAt(at: nat): Visit { Visit(at, VERDEF.main) }

  function AuxAt(at: nat): Visit { Visit(at, VERDEF.auxiliary) }

  lemma RecordSizes(at: nat)
    ensures Size(MainAt(at).widths) == 20 && Size(AuxAt(at).widths) == 8
    ensures |MainAt(at).widths| == 7 && |AuxAt(at).widths| == 2
  {
    MirrorInNext(VERDEF.main, 0);
    assert VERDEF.auxiliary[1..] == [4] && Size([4]) == 4;
  }

  lemma SmallFits(n: nat)
    requires n < 0x1_0000
    ensures n < Range(2) && n < Range(4)
  {
    assert Range(2) == 256 * Range(1) && Range(1) == 256 * Range(0);
    assert Range(4) == 256 * Range(3) && Range(3) == 256 * Range(2);
  }

  /** A main record is read with the values that were stored. */
  lemma MainRead(src: seq<byte>, at: nat, vs: seq<nat>, encoding: nat)
    requires |vs| == 7 && (forall i :: 0 <= i < 7 ==> vs[i] < 0x1_0000)
    requires at + 20 <= |src| && src[at..at + 20] == StoreAll(vs, VERDEF.main, encoding)
    ensures Inside(MainAt(at), |src|) && Values(src, encoding, MainAt(at)) == vs
  {
    RecordSizes(at);
    forall i | 0 <= i < 7
      ensures vs[i] < Range(VERDEF.main[i])
    {
      SmallFits(vs[i]);
    }
    StoredAll(vs, VERDEF.main, encoding);
  }

  lemma AuxRead(src: seq<byte>, at: nat, b: seq<byte>, encoding: nat)
    requires |b| == 8 && at + 8 <= |src| && src[at..at + 8] == b
    ensures Inside(AuxAt(at), |src|)
    ensures Values(src, encoding, AuxAt(at)) == [Load(b[..4], encoding), Load(b[4..], encoding)]
  {
    RecordSizes(at);
    var ws := VERDEF.auxiliary;
    assert ws[1..] == [4] && ws[1..][1..] == [] && b[4..][..4] == b[4..] && b[4..][4..] == [];
    assert LoadAll(b[4..], ws[1..], encoding) == [Load(b[4..], encoding)];
  }

  /** The first two fields of a main record, version and flags. */
  lemma FirstFour(vs: seq<nat>, encoding: nat)
    requires |vs| == 7 && vs[0] == 1 && vs[1] == 0
    ensures |StoreAll(vs, VERDEF.main, encoding)| == 20
    ensures StoreAll(vs, VERDEF.main, encoding)[..4] == if encoding == ELFDATA2MSB then [0, 1, 0, 0] else [1, 0, 0, 0]
  {
    RecordSizes(0);
    var ws := VERDEF.main;
    var rest := StoreAll(vs[2..], ws[2..], encoding);
    assert vs[1..][1..] == vs[2..] && ws[1..][1..] == ws[2..];
    assert StoreAll(vs[1..], ws[1..], encoding) == Store(0, 2, encoding) + rest;
    assert Little(1, 2) == [1, 0] && Little(0, 2) == [0, 0];
    assert StoreAll(vs, ws, encoding) == Store(1, 2, encoding) + (Store(0, 2, encoding) + rest);
  }

  // ----- Into another buffer -----

  ghost predicate MainValues(vs: seq<nat>, cnt: nat, aux: nat, next: nat) {
    && |vs| == 7 && (forall i :: 0 <= i < 7 ==> vs[i] < 0x1_0000)
    && vs[0] == 1 && vs[1] == 0 && vs[3] == cnt && vs[5] == aux && vs[6] == next
  }

  /** Two main records, and an auxiliary record of the first that reaches into the second: its link to the next one
      is what the second says of its version and flags. */
  ghost predicate IsChain(src: seq<byte>, vs: seq<nat>, us: seq<nat>) {
    && |src| == 44 && MainValues(vs, 2, 20, 24) && MainValues(us, 1, 20, 0)
    && src[0..20] == StoreAll(vs, VERDEF.main, ELFDATA2MSB) && src[20..24] == [0, 0, 0, 0]
    && src[24..44] == StoreAll(us, VERDEF.main, ELFDATA2MSB)
  }

  function ChainVisits(): seq<Visit> { [MainAt(0), AuxAt(20), MainAt(24)] }

  lemma ChainRead(src: seq<byte>, vs: seq<nat>, us: seq<nat>)
    requires IsChain(src, vs, us)
    ensures AllInside(ChainVisits(), 44)
    ensures Values(src, ELFDATA2MSB, MainAt(0)) == vs && Values(src, ELFDATA2MSB, MainAt(24)) == us
    ensures Values(src, ELFDATA2MSB, AuxAt(20)) == [0, 0x1_0000]
  {
    MainRead(src, 0, vs, ELFDATA2MSB);
    MainRead(src, 24, us, ELFDATA2MSB);
    FirstFour(us, ELFDATA2MSB);
    AuxOfChain(src, src[24..44]);
    RecordSizes(20);
  }

  lemma AuxOfChain(src: seq<byte>, b: seq<byte>)
    requires |src| == 44 && src[20..24] == [0, 0, 0, 0] && b == src[24..44] && b[..4] == [0, 1, 0, 0]
    ensures Inside(AuxAt(20), |src|) && Values(src, ELFDATA2MSB, AuxAt(20)) == [0, 0x1_0000]
  {
    var c := src[20..28];
    assert c[..4] == src[20..24] && c[4..] == b[..4];
    AuxRead(src, 20, c, ELFDATA2MSB);
    LoadFour(0, 0, 0, 0);
    LoadFour(0, 1, 0, 0);
  }

  lemma AuxWalk(src: seq<byte>, encoding: nat, at: nat, left: nat, step: nat)
    requires at % 4 == 0 && left > 0 && Inside(AuxAt(at), |src|) && Values(src, encoding, AuxAt(at))[1] == step
    ensures WalkAux(VERDEF, src, encoding, at, left)
         == if step == 0 then Walked([AuxAt(at)])
            else Prepend([AuxAt(at)], WalkAux(VERDEF, src, encoding, at + step, left - 1))
  {
  }

  lemma PastTheEnd(src: seq<byte>, encoding: nat, at: nat, left: nat)
    requires at >= |src|
    ensures WalkAux(VERDEF, src, encoding, at, left) == Walked([])
  {
    RecordSizes(at);
  }

  lemma MainWalk(src: seq<byte>, encoding: nat, at: nat, vs: seq<nat>, aux: Walked, rest: Walked)
    requires at % 4 == 0 && Inside(MainAt(at), |src|) && vs == Values(src, encoding, MainAt(at))
    requires |vs| == 7 && vs[0] == 1 && vs[3] > 0 && vs[5] > 0
    requires aux == WalkAux(VERDEF, src, encoding, at + vs[5], vs[3])
    requires rest == if vs[6] == 0 then Walked([]) else Walk(VERDEF, src, encoding, at + vs[6])
    ensures Walk(VERDEF, src, encoding, at)
         == if aux.Bad? then aux else Prepend([MainAt(at)] + aux.visits, rest)
  {
  }

  lemma ChainWalk(src: seq<byte>, vs: seq<nat>, us: seq<nat>)
    requires IsChain(src, vs, us)
    ensures Walk(VERDEF, src, ELFDATA2MSB, 0) == Walked(ChainVisits())
  {
    ChainRead(src, vs, us);
    AuxWalk(src, ELFDATA2MSB, 20, 2, 0x1_0000);
    PastTheEnd(src, ELFDATA2MSB, 20 + 0x1_0000, 1);
    PastTheEnd(src, ELFDATA2MSB, 44, 1);
    MainWalk(src, ELFDATA2MSB, 24, us, Walked([]), Walked([]));
    MainWalk(src, ELFDATA2MSB, 0, vs, Walked([AuxAt(20)]), Walked([MainAt(24)]));
  }

  lemma ApartIsCompatible(src: seq<byte>, from: nat, to: nat, u: Visit, v: Visit)
    requires Inside(u, |src|) && Inside(v, |src|) && VisitsApart(u, v)
    ensures Compatible(Translated(src, from, to, u), Translated(src, from, to, v))
  {
  }

  /** The first main record is translated, and so is the second, which is written last. */
  lemma ChainMains(src: seq<byte>, vs: seq<nat>, us: seq<nat>, dst: seq<byte>, out: seq<byte>)
    requires IsChain(src, vs, us) && |dst| == 44 && AllInside(ChainVisits(), 44)
    requires out == PatchAll(dst, AllTranslated(src, ELFDATA2MSB, ELFDATA2LSB, ChainVisits()))
    ensures Inside(MainAt(0), 44) && Values(out, ELFDATA2LSB, MainAt(0)) == vs
    ensures out[24..44] == StoreAll(us, VERDEF.main, ELFDATA2LSB)
  {
    ChainRead(src, vs, us);
    RecordSizes(0);
    RecordSizes(20);
    RecordSizes(24);
    var visits := ChainVisits();
    var ps := AllTranslated(src, ELFDATA2MSB, ELFDATA2LSB, visits);
    ApartIsCompatible(src, ELFDATA2MSB, ELFDATA2LSB, visits[0], visits[1]);
    ApartIsCompatible(src, ELFDATA2MSB, ELFDATA2LSB, visits[0], visits[2]);
    PieceHolds(dst, ps, 0);
    TranslatedBack(src, ELFDATA2MSB, ELFDATA2LSB, visits[0], out);
    PieceHolds(dst, ps, 2);
    assert ps[2] == Translated(src, ELFDATA2MSB, ELFDATA2LSB, visits[2]);
  }

  lemma AuxTranslatedWrong(out: seq<byte>, b: seq<byte>)
    requires |out| == 44 && b == out[24..44] && b[..4] == [1, 0, 0, 0]
    ensures Inside(AuxAt(20), |out|) && Values(out, ELFDATA2LSB, AuxAt(20))[1] == 1
  {
    var c := out[20..28];
    assert c[4..] == b[..4];
    AuxRead(out, 20, c, ELFDATA2LSB);
    LoadFour(1, 0, 0, 0);
  }

  /** The chain is translated into any other buffer without an error, but cannot be walked there: the link of the
      auxiliary record now leads to a place that is no multiple of four. */
  lemma ChainBroken(src: seq<byte>, vs: seq<nat>, us: seq<nat>, dst: seq<byte>)
    requires IsChain(src, vs, us) && |dst| == 44
    ensures Walk(VERDEF, src, ELFDATA2MSB, 0) == Walked(ChainVisits()) && AllInside(ChainVisits(), 44)
    ensures var out := PatchAll(dst, AllTranslated(src, ELFDATA2MSB, ELFDATA2LSB, ChainVisits()));
            Walk(VERDEF, out, ELFDATA2LSB, 0) == Bad(BadFormat)
  {
    ChainWalk(src, vs, us);
    ChainRead(src, vs, us);
    var out := PatchAll(dst, AllTranslated(src, ELFDATA2MSB, ELFDATA2LSB, ChainVisits()));
    ChainMains(src, vs, us, dst, out);
    FirstFour(us, ELFDATA2LSB);
    AuxTranslatedWrong(out, out[24..44]);
    BrokenWalk(out, vs);
  }

  lemma BrokenWalk(out: seq<byte>, vs: seq<nat>)
    requires |out| == 44 && MainValues(vs, 2, 20, 24)
    requires Inside(MainAt(0), 44) && Values(out, ELFDATA2LSB, MainAt(0)) == vs
    requires Inside(AuxAt(20), 44) && Values(out, ELFDATA2LSB, AuxAt(20))[1] == 1
    ensures Walk(VERDEF, out, ELFDATA2LSB, 0) == Bad(BadFormat)
  {
    RecordSizes(21);
    assert WalkAux(VERDEF, out, ELFDATA2LSB, 21, 1) == Bad(BadFormat);
    AuxWalk(out, ELFDATA2LSB, 20, 2, 1);
    MainWalk(out, ELFDATA2LSB, 0, vs, Bad(BadFormat), Walk(VERDEF, out, ELFDATA2LSB, 24));
  }

  // ----- In place -----

  /** Two main records with one auxiliary record between them. */
  ghost predicate IsShared(src: seq<byte>, vs: seq<nat>, us: seq<nat>) {
    && |src| == 48 && MainValues(vs, 1, 40, 20) && MainValues(us, 1, 20, 0)
    && src[0..20] == StoreAll(vs, VERDEF.main, ELFDATA2MSB) && src[20..40] == StoreAll(us, VERDEF.main, ELFDATA2MSB)
    && src[40..48] == [0, 0, 0, 1, 0, 0, 0, 0]
  }

  lemma WriteKeeps(b: Buffers, p: Piece, lo: nat, hi: nat)
    requires b.Paired() && b.same && p.at + |p.bytes| <= |b.dst| && lo <= hi <= |b.dst|
    requires p.at + |p.bytes| <= lo || hi <= p.at
    ensures b.Write(p).src[lo..hi] == b.src[lo..hi]
  {
  }

  lemma WritePuts(b: Buffers, p: Piece)
    requires b.Paired() && b.same && p.at + |p.bytes| <= |b.dst|
    ensures b.Write(p).src[p.at..p.at + |p.bytes|] == p.bytes && b.Write(p).dst == b.Write(p).src
  {
  }

  /** One turn of a main record with a single auxiliary record at 40. */
  lemma MainTurn(b: Buffers, off: nat, vs: seq<nat>, b1: Buffers, ws: seq<nat>, b2: Buffers)
    requires b.Paired() && b.same && |b.src| == 48 && off % 4 == 0 && off + 20 <= 40
    requires |vs| == 7 && MainValues(vs, 1, 40 - off, vs[6])
    requires Inside(MainAt(off), 48) && Values(b.src, ELFDATA2MSB, MainAt(off)) == vs
    requires b1 == b.Write(StoredRecord(MainAt(off), vs, ELFDATA2LSB))
    requires Inside(AuxAt(40), 48) && Values(b1.src, ELFDATA2MSB, AuxAt(40)) == ws && |ws| == 2 && ws[1] == 0
    requires b2 == b1.Write(StoredRecord(AuxAt(40), ws, ELFDATA2LSB))
    ensures TranslateFrom(VERDEF, b, ELFDATA2MSB, ELFDATA2LSB, off)
         == Onwards(VERDEF, Result(b2, None), ELFDATA2MSB, ELFDATA2LSB, off, off + vs[6])
  {
    MainStep(VERDEF, b, ELFDATA2MSB, ELFDATA2LSB, off, MainAt(off), vs, b1);
    AfterMainStep(VERDEF, b1, ELFDATA2MSB, ELFDATA2LSB, off, vs, 40, 1, off + vs[6]);
    AuxStep(VERDEF, b1, ELFDATA2MSB, ELFDATA2LSB, 40, 1, AuxAt(40), ws, 40, 0);
  }

  /** A small number, as it is stored and as it is taken when it is read the other way round. */
  lemma OneTurned()
    ensures Load([0, 0, 0, 1], ELFDATA2MSB) == 1 && Store(1, 4, ELFDATA2LSB) == [1, 0, 0, 0]
    ensures Load([1, 0, 0, 0], ELFDATA2MSB) == 0x100_0000 && Store(0x100_0000, 4, ELFDATA2LSB) == [0, 0, 0, 1]
    ensures Load([0, 0, 0, 0], ELFDATA2MSB) == 0 && Store(0, 4, ELFDATA2LSB) == [0, 0, 0, 0]
  {
    LoadFour(0, 0, 0, 1);
    LoadFour(1, 0, 0, 0);
    LoadFour(0, 0, 0, 0);
    Loaded([1, 0, 0, 0], ELFDATA2LSB);
    Loaded([0, 0, 0, 1], ELFDATA2LSB);
    Loaded([0, 0, 0, 0], ELFDATA2LSB);
  }

  /** The auxiliary record is written with its name turned around and its link zero. */
  lemma AuxWritten(b: Buffers, name: nat, bytes: seq<byte>, b': Buffers)
    requires b.Paired() && b.same && |b.src| == 48 && Inside(AuxAt(40), 48)
    requires |bytes| == 4 && Store(name, 4, ELFDATA2LSB) == bytes && Store(0, 4, ELFDATA2LSB) == [0, 0, 0, 0]
    requires |AuxAt(40).widths| == 2 && b' == b.Write(StoredRecord(AuxAt(40), [name, 0], ELFDATA2LSB))
    ensures |b'.src| == 48 && b'.src[40..48] == bytes + [0, 0, 0, 0] && b'.src[20..40] == b.src[20..40]
    ensures b'.src[0..20] == b.src[0..20] && b'.dst == b'.src
  {
    RecordSizes(40);
    var ws, p := VERDEF.auxiliary, StoredRecord(AuxAt(40), [name, 0], ELFDATA2LSB);
    assert ws[1..] == [4] && [name, 0][1..] == [0] && [4][1..] == [];
    assert StoreAll([0], [4], ELFDATA2LSB) == [0, 0, 0, 0];
    WritePuts(b, p);
    WriteKeeps(b, p, 20, 40);
    WriteKeeps(b, p, 0, 20);
  }

  lemma AuxBack(b: Buffers, bytes: seq<byte>, name: nat)
    requires b.Paired() && |b.src| == 48 && |bytes| == 4 && b.src[40..48] == bytes + [0, 0, 0, 0]
    requires Load(bytes, ELFDATA2MSB) == name && Load([0, 0, 0, 0], ELFDATA2MSB) == 0
    ensures Inside(AuxAt(40), 48) && Values(b.src, ELFDATA2MSB, AuxAt(40)) == [name, 0]
  {
    var c := bytes + [0, 0, 0, 0];
    assert c[..4] == bytes && c[4..] == [0, 0, 0, 0];
    AuxRead(b.src, 40, c, ELFDATA2MSB);
  }

  lemma MainWritten(b: Buffers, at: nat, vs: seq<nat>, b': Buffers)
    requires b.Paired() && b.same && |b.src| == 48 && at + 20 <= 40 && |vs| == 7 && |MainAt(at).widths| == 7
    requires Inside(MainAt(at), 48) && b' == b.Write(StoredRecord(MainAt(at), vs, ELFDATA2LSB))
    ensures |b'.src| == 48 && b'.src[40..48] == b.src[40..48] && (at == 0 ==> b'.src[20..40] == b.src[20..40])
  {
    RecordSizes(at);
    WriteKeeps(b, StoredRecord(MainAt(at), vs, ELFDATA2LSB), 40, 48);
    if at == 0 {
      WriteKeeps(b, StoredRecord(MainAt(at), vs, ELFDATA2LSB), 20, 40);
    }
  }

  lemma FirstTurn(src: seq<byte>, b: Buffers, vs: seq<nat>, us: seq<nat>) returns (b2: Buffers)
    requires IsShared(src, vs, us) && b == Buffers(src, src, true)
    ensures b2.Paired() && b2.same && |b2.src| == 48
    ensures b2.src[40..48] == [1, 0, 0, 0] + [0, 0, 0, 0] && b2.src[20..40] == src[20..40]
    ensures TranslateFrom(VERDEF, b, ELFDATA2MSB, ELFDATA2LSB, 0)
         == Onwards(VERDEF, Result(b2, None), ELFDATA2MSB, ELFDATA2LSB, 0, 20)
  {
    OneTurned();
    RecordSizes(0);
    RecordSizes(40);
    assert src[40..48] == [0, 0, 0, 1] + [0, 0, 0, 0];
    MainRead(src, 0, vs, ELFDATA2MSB);
    var b1 := b.Write(StoredRecord(MainAt(0), vs, ELFDATA2LSB));
    MainWritten(b, 0, vs, b1);
    AuxBack(b1, [0, 0, 0, 1], 1);
    b2 := b1.Write(StoredRecord(AuxAt(40), [1, 0], ELFDATA2LSB));
    AuxWritten(b1, 1, [1, 0, 0, 0], b2);
    MainTurn(b, 0, vs, b1, [1, 0], b2);
  }

  lemma SecondTurn(b: Buffers, us: seq<nat>) returns (b2: Buffers)
    requires b.Paired() && b.same && |b.src| == 48 && MainValues(us, 1, 20, 0)
    requires b.src[20..40] == StoreAll(us, VERDEF.main, ELFDATA2MSB) && b.src[40..48] == [1, 0, 0, 0] + [0, 0, 0, 0]
    ensures b2.Paired() && |b2.src| == 48 && b2.dst == b2.src && b2.src[40..48] == [0, 0, 0, 1] + [0, 0, 0, 0]
    ensures TranslateFrom(VERDEF, b, ELFDATA2MSB, ELFDATA2LSB, 20)
         == Onwards(VERDEF, Result(b2, None), ELFDATA2MSB, ELFDATA2LSB, 20, 20)
  {
    OneTurned();
    RecordSizes(20);
    RecordSizes(40);
    MainRead(b.src, 20, us, ELFDATA2MSB);
    var b1 := b.Write(StoredRecord(MainAt(20), us, ELFDATA2LSB));
    MainWritten(b, 20, us, b1);
    AuxBack(b1, [1, 0, 0, 0], 0x100_0000);
    b2 := b1.Write(StoredRecord(AuxAt(40), [0x100_0000, 0], ELFDATA2LSB));
    AuxWritten(b1, 0x100_0000, [0, 0, 0, 1], b2);
    MainTurn(b, 20, us, b1, [0x100_0000, 0], b2);
  }

  lemma TurnsEnd(b: Buffers, b2: Buffers, b4: Buffers, off: nat, next: nat, r: Result)
    requires b.Paired() && |b.src| == 48 && b2.Paired() && |b2.src| == 48 && b4.Paired() && |b4.src| == 48
    requires off < next <= 48 && r == Result(b4, None)
    requires TranslateFrom(VERDEF, b, ELFDATA2MSB, ELFDATA2LSB, off)
          == Onwards(VERDEF, Result(b2, None), ELFDATA2MSB, ELFDATA2LSB, off, next)
    requires TranslateFrom(VERDEF, b2, ELFDATA2MSB, ELFDATA2LSB, next)
          == Onwards(VERDEF, Result(b4, None), ELFDATA2MSB, ELFDATA2LSB, next, next)
    ensures TranslateFrom(VERDEF, b, ELFDATA2MSB, ELFDATA2LSB, off) == r
  {
  }

  lemma SharedTurns(src: seq<byte>, vs: seq<nat>, us: seq<nat>, b: Buffers) returns (r: Result)
    requires IsShared(src, vs, us) && b == Buffers(src, src, true)
    ensures TranslateFrom(VERDEF, b, ELFDATA2MSB, ELFDATA2LSB, 0) == r
    ensures r.error == None && |r.buffers.dst| == 48 && r.buffers.dst[40..48] == [0, 0, 0, 1] + [0, 0, 0, 0]
  {
    var b2 := FirstTurn(src, b, vs, us);
    var b4 := SecondTurn(b2, us);
    r := Result(b4, None);
    TurnsEnd(b, b2, b4, 0, 20, r);
  }

  /** A record that two main records share is translated twice in place, and so is what it was. */
  lemma SharedRecordSpoiled(src: seq<byte>, vs: seq<nat>, us: seq<nat>) returns (r: Result)
    requires IsShared(src, vs, us)
    ensures r == TranslateFrom(VERDEF, Buffers(src, src, true), ELFDATA2MSB, ELFDATA2LSB, 0)
    ensures r.error == None && |r.buffers.dst| == 48 && r.buffers.dst[40..48] == src[40..48]
    ensures Inside(AuxAt(40), 48) && Translated(src, ELFDATA2MSB, ELFDATA2LSB, AuxAt(40)).bytes != src[40..48]
  {
    r := SharedTurns(src, vs, us, Buffers(src, src, true));
    RecordSizes(40);
    SharedTranslated(src);
  }

  lemma SharedTranslated(src: seq<byte>)
    requires |src| == 48 && src[40..48] == [0, 0, 0, 1, 0, 0, 0, 0] && Inside(AuxAt(40), 48)
    ensures Translated(src, ELFDATA2MSB, ELFDATA2LSB, AuxAt(40)).bytes != src[40..48]
  {
    RecordSizes(40);
    var b := Bytes(src, AuxAt(40));
    var r := Recode(b, VERDEF.auxiliary, ELFDATA2MSB, ELFDATA2LSB);
    RecodedByte(b, VERDEF.auxiliary, ELFDATA2MSB, ELFDATA2LSB, 0, r);
    assert Mirror(VERDEF.auxiliary, 0) == 3 && b[3] == 1 && b[0] == 0;
  }

  // ----- Both chains exist -----

  lemma Stretch(a: seq<byte>, c: seq<byte>, d: seq<byte>, m: nat, n: nat, all: seq<byte>)
    requires all == a + c + d && |a| == m && m + |c| == n
    ensures all[0..m] == a && all[m..n] == c && all[n..] == d
  {
  }

  /** The records (version, flags, index, count, hash, aux, next) in the first chain are (1, 0, 0, 2, 0, 20, 24) and
      (1, 0, 0, 1, 0, 20, 0) with four zero bytes between them, in the second chain (1, 0, 0, 1, 0, 40, 20) and
      (1, 0, 0, 1, 0, 20, 0). */
  lemma ChainsExist(vs: seq<nat>, us: seq<nat>, ws: seq<nat>) returns (a: seq<byte>, b: seq<byte>)
    requires vs == [1, 0, 0, 2, 0, 20, 24] && us == [1, 0, 0, 1, 0, 20, 0] && ws == [1, 0, 0, 1, 0, 40, 20]
    ensures IsChain(a, vs, us) && IsShared(b, ws, us)
  {
    RecordSizes(0);
    var v, u, w := StoreAll(vs, VERDEF.main, ELFDATA2MSB), StoreAll(us, VERDEF.main, ELFDATA2MSB),
        StoreAll(ws, VERDEF.main, ELFDATA2MSB);
    var zeros: seq<byte>, name: seq<byte> := [0, 0, 0, 0], [0, 0, 0, 1, 0, 0, 0, 0];
    a, b := v + zeros + u, w + u + name;
    Stretch(v, zeros, u, 20, 24, a);
    Stretch(w, u, name, 20, 40, b);
    assert a[24..] == a[24..44] && b[40..] == b[40..48];
  }
}
