/**
 Version records that overlap: when the translation carries them over all the same, and what it does when not.
 */
module ElfVersionsOverlap {
  import opened Basics
  import opened ElfTypes
  import opened ElfCoding
  import opened ElfMirrors
  import opened ElfPatches
  import opened ElfVersions
  import opened ElfVersionsXlt

  predicate Covers(v: Visit, p: nat) {
    v.at <= p < v.at + Size(v.widths)
  }

  /** The byte that byte `p` trades with when the record `v` is turned around. */
  function MirrorAt(v: Visit, p: nat): (q: nat)
    requires Covers(v, p)
    ensures Covers(v, q)
  {
    v.at + Mirror(v.widths, p - v.at)
  }

  /** The byte of the source that the translation of `v` puts at place `p`. */
  function Source(src: seq<byte>, from: nat, to: nat, v: Visit, p: nat): byte
    requires Inside(v, |src|) && Covers(v, p)
  {
    if SameOrder(from, to) then src[p] else src[MirrorAt(v, p)]
  }

  lemma TurnedByte(src: seq<byte>, from: nat, to: nat, v: Visit, p: nat, i: nat, b: seq<byte>)
    requires Inside(v, |src|) && p == v.at + i && i < Size(v.widths) && b == Bytes(src, v)
    ensures Turned(b, v.widths, from, to, i) == Source(src, from, to, v, p)
  {
    var j := Mirror(v.widths, i);
    assert b[i] == src[v.at + i] && b[j] == src[v.at + j];
  }

  lemma TranslatedByte(src: seq<byte>, from: nat, to: nat, v: Visit, p: nat)
    requires Inside(v, |src|) && Covers(v, p)
    ensures Writes(Translated(src, from, to, v), p)
    ensures ByteAt(Translated(src, from, to, v), p) == Source(src, from, to, v, p)
  {
    var b, i := Bytes(src, v), p - v.at;
    var r := Recode(b, v.widths, from, to);
    RecodedByte(b, v.widths, from, to, i, r);
    TurnedByte(src, from, to, v, p, i, b);
  }

  // ----- Exactly when records are carried over -----

  /** A byte that both records cover comes from the same byte value in both. */
  predicate SameMirrors(src: seq<byte>, u: Visit, v: Visit)
    requires Inside(u, |src|) && Inside(v, |src|)
  {
    forall p | 0 <= p < |src| && Covers(u, p) && Covers(v, p) :: src[MirrorAt(u, p)] == src[MirrorAt(v, p)]
  }

  /** Two translations agree just if they take the same bytes of the source to every common place. */
  lemma CompatibleIfSameSource(src: seq<byte>, from: nat, to: nat, u: Visit, v: Visit, a: Piece, b: Piece)
    requires Inside(u, |src|) && Inside(v, |src|)
    requires a == Translated(src, from, to, u) && b == Translated(src, from, to, v)
    ensures Compatible(a, b)
       <==> forall p: nat | Covers(u, p) && Covers(v, p) :: Source(src, from, to, u, p) == Source(src, from, to, v, p)
  {
    forall p: nat | Covers(u, p) && Covers(v, p)
      ensures Writes(a, p) && Writes(b, p)
      ensures ByteAt(a, p) == Source(src, from, to, u, p) && ByteAt(b, p) == Source(src, from, to, v, p)
    {
      TranslatedByte(src, from, to, u, p);
      TranslatedByte(src, from, to, v, p);
    }
    assert forall p: nat :: (Writes(a, p) <==> Covers(u, p)) && (Writes(b, p) <==> Covers(v, p));
  }

  lemma CompatibleExactly(src: seq<byte>, from: nat, to: nat, u: Visit, v: Visit)
    requires Inside(u, |src|) && Inside(v, |src|)
    ensures Compatible(Translated(src, from, to, u), Translated(src, from, to, v))
       <==> SameOrder(from, to) || SameMirrors(src, u, v)
  {
    CompatibleIfSameSource(src, from, to, u, v, Translated(src, from, to, u), Translated(src, from, to, v));
    SameSourceExactly(src, from, to, u, v);
  }

  lemma SameSourceExactly(src: seq<byte>, from: nat, to: nat, u: Visit, v: Visit)
    requires Inside(u, |src|) && Inside(v, |src|)
    ensures (forall p: nat | Covers(u, p) && Covers(v, p) :: Source(src, from, to, u, p) == Source(src, from, to, v, p))
       <==> SameOrder(from, to) || SameMirrors(src, u, v)
  {
  }

  /** The condition on the bytes of the source: records agree if and only if the byte order stays, or every byte that
      two of them cover comes from the same byte value in both. */
  lemma AgreeingExactly(src: seq<byte>, from: nat, to: nat, visits: seq<Visit>)
    requires AllInside(visits, |src|)
    ensures Agreeing(src, from, to, visits)
       <==> SameOrder(from, to)
            || forall j, k {:trigger visits[j], visits[k]} :: 0 <= j < k < |visits| ==>
                 SameMirrors(src, visits[j], visits[k])
  {
    forall j, k {:trigger visits[j], visits[k]} | 0 <= j < k < |visits|
      ensures Compatible(Translated(src, from, to, visits[j]), Translated(src, from, to, visits[k]))
         <==> SameOrder(from, to) || SameMirrors(src, visits[j], visits[k])
    {
      CompatibleExactly(src, from, to, visits[j], visits[k]);
    }
  }

  /** Whatever the bytes are: where the two records overlap, they have the same fields. */
  predicate SameFields(u: Visit, v: Visit) {
    forall p | u.at <= p < u.at + Size(u.widths) && Covers(v, p) :: MirrorAt(u, p) == MirrorAt(v, p)
  }

  predicate OverlapsAreFields(visits: seq<Visit>) {
    forall j, k {:trigger visits[j], visits[k]} :: 0 <= j < k < |visits| ==> SameFields(visits[j], visits[k])
  }

  lemma FieldsAgree(src: seq<byte>, from: nat, to: nat, visits: seq<Visit>)
    requires AllInside(visits, |src|) && OverlapsAreFields(visits)
    ensures Agreeing(src, from, to, visits)
  {
    AgreeingExactly(src, from, to, visits);
    forall j, k {:trigger visits[j], visits[k]} | 0 <= j < k < |visits|
      ensures SameMirrors(src, visits[j], visits[k])
    {
      assert SameFields(visits[j], visits[k]);
    }
  }

  lemma MirrorPast(ws: seq<nat>, i: nat, n: nat)
    requires ws != [] && n == i + ws[0] && n < Size(ws)
    ensures Mirror(ws, n) == ws[0] + Mirror(ws[1..], i)
  {
  }

  /** The last field of a main record. */
  lemma MirrorInNext(ws: seq<nat>, i: nat)
    requires ws == [2, 2, 2, 2, 4, 4, 4] && i < 4
    ensures Size(ws) == 20 && Mirror(ws, 16 + i) == 16 + (3 - i)
  {
    var w1, w2, w3, w4, w5, w6 := ws[1..], ws[2..], ws[3..], ws[4..], ws[5..], ws[6..];
    assert w1[1..] == w2 && w2[1..] == w3 && w3[1..] == w4 && w4[1..] == w5 && w5[1..] == w6 && w6[1..] == [];
    assert Size(w6) == 4 && Size(w5) == 8 && Size(w4) == 12 && Size(w3) == 14 && Size(w2) == 16 && Size(w1) == 18;
    MirrorPast(w5, i, 4 + i);
    MirrorPast(w4, 4 + i, 8 + i);
    MirrorPast(w3, 8 + i, 10 + i);
    MirrorPast(w2, 10 + i, 12 + i);
    MirrorPast(w1, 12 + i, 14 + i);
    MirrorPast(ws, 14 + i, 16 + i);
  }

  /** An auxiliary record may start on the last field of its main record. */
  lemma AuxOnNext(src: seq<byte>, from: nat, to: nat, u: Visit, v: Visit)
    requires u.widths == VERDEF.main && v == Visit(u.at + 16, VERDEF.auxiliary) && AllInside([u, v], |src|)
    ensures Agreeing(src, from, to, [u, v])
  {
    assert SameFields(u, v) by {
      assert v.widths[1..] == [4] && Size([4]) == 4 && Size(v.widths) == 8;
      MirrorInNext(u.widths, 0);
      forall p | u.at <= p < u.at + Size(u.widths) && Covers(v, p)
        ensures MirrorAt(u, p) == MirrorAt(v, p)
      {
        MirrorInNext(u.widths, p - v.at);
        assert p - u.at == 16 + (p - v.at);
      }
    }
    FieldsAgree(src, from, to, [u, v]);
  }

  // ----- In place -----

  predicate AllApart(visits: seq<Visit>) {
    forall j, k {:trigger visits[j], visits[k]} :: 0 <= j < k < |visits| ==> VisitsApart(visits[j], visits[k])
  }

  /** Either no record overlaps another, or the byte order stays. */
  predicate Separable(visits: seq<Visit>, from: nat, to: nat) {
    SameOrder(from, to) || AllApart(visits)
  }

  lemma SeparableAgrees(src: seq<byte>, from: nat, to: nat, visits: seq<Visit>)
    requires AllInside(visits, |src|) && Separable(visits, from, to)
    ensures Agreeing(src, from, to, visits)
  {
    AgreeingExactly(src, from, to, visits);
    if AllApart(visits) {
      forall j, k {:trigger visits[j], visits[k]} | 0 <= j < k < |visits|
        ensures SameMirrors(src, visits[j], visits[k])
      {
        assert VisitsApart(visits[j], visits[k]);
      }
    }
  }

  /** Every byte that both records cover is the same as the one that it trades with in `u`. */
  predicate Unturned(src: seq<byte>, u: Visit, v: Visit)
    requires Inside(u, |src|) && Inside(v, |src|)
  {
    forall p | 0 <= p < |src| && Covers(u, p) && Covers(v, p) :: src[p] == src[MirrorAt(u, p)]
  }

  /** The record `v` is left alone by the translation of `u` if and only if the byte order stays, or every byte that
      both cover is the same as the one that it trades with in `u`. */
  lemma SparedExactly(src: seq<byte>, from: nat, to: nat, u: Visit, v: Visit)
    requires Inside(u, |src|) && Inside(v, |src|)
    ensures Spared(src, from, to, [u], v)
       <==> SameOrder(from, to) || Unturned(src, u, v)
  {
    var a, b := Piece(v.at, Bytes(src, v)), Translated(src, from, to, u);
    assert Spared(src, from, to, [u], v) <==> Compatible(a, b) by {
      assert [u][0] == u;
    }
    SparedIfSameSource(src, from, to, u, v, a, b);
    UnturnedExactly(src, from, to, u, v);
  }

  lemma SparedIfSameSource(src: seq<byte>, from: nat, to: nat, u: Visit, v: Visit, a: Piece, b: Piece)
    requires Inside(u, |src|) && Inside(v, |src|)
    requires a == Piece(v.at, Bytes(src, v)) && b == Translated(src, from, to, u)
    ensures Compatible(a, b)
       <==> forall p: nat | Covers(u, p) && Covers(v, p) :: src[p] == Source(src, from, to, u, p)
  {
    forall p: nat | Covers(u, p) && Covers(v, p)
      ensures ByteAt(a, p) == src[p] && ByteAt(b, p) == Source(src, from, to, u, p)
    {
      TranslatedByte(src, from, to, u, p);
    }
    if Compatible(a, b) {
      forall p: nat | Covers(u, p) && Covers(v, p)
        ensures src[p] == Source(src, from, to, u, p)
      {
        assert Writes(a, p) && Writes(b, p);
      }
    }
  }

  lemma UnturnedExactly(src: seq<byte>, from: nat, to: nat, u: Visit, v: Visit)
    requires Inside(u, |src|) && Inside(v, |src|)
    ensures (forall p: nat | Covers(u, p) && Covers(v, p) :: src[p] == Source(src, from, to, u, p))
       <==> SameOrder(from, to) || Unturned(src, u, v)
  {
  }

  lemma SparedByEach(src: seq<byte>, from: nat, to: nat, visits: seq<Visit>, v: Visit)
    requires AllInside(visits, |src|) && Inside(v, |src|)
    requires forall k {:trigger visits[k]} :: 0 <= k < |visits| ==> Spared(src, from, to, [visits[k]], v)
    ensures Spared(src, from, to, visits, v)
  {
    forall k {:trigger visits[k]} | 0 <= k < |visits|
      ensures Compatible(Piece(v.at, Bytes(src, v)), Translated(src, from, to, visits[k]))
    {
      assert [visits[k]][0] == visits[k];
    }
  }

  lemma {:induction false} SeparableIsSpared(src: seq<byte>, from: nat, to: nat, visits: seq<Visit>)
    requires AllInside(visits, |src|) && Separable(visits, from, to)
    ensures AllSpared(src, from, to, visits)
    decreases |visits|
  {
    if visits != [] {
      var n := |visits| - 1;
      var init, v := visits[..n], visits[n];
      SeparableIsSpared(src, from, to, init);
      forall k {:trigger init[k]} | 0 <= k < |init|
        ensures Spared(src, from, to, [init[k]], v)
      {
        assert init[k] == visits[k];
        SparedExactly(src, from, to, init[k], v);
      }
      SparedByEach(src, from, to, init, v);
    }
  }

  // ----- Where the byte order stays -----

  lemma SameOrderRecord(b: seq<byte>, ws: seq<nat>, from: nat, to: nat)
    requires |b| == Size(ws) && SameOrder(from, to)
    ensures Recode(b, ws, from, to) == b
  {
    var r := Recode(b, ws, from, to);
    forall i | 0 <= i < |b|
      ensures r[i] == b[i]
    {
      RecodedByte(b, ws, from, to, i, r);
    }
  }

  lemma WriteItself(b: Buffers, p: Piece)
    requires b.Paired() && b.same && Holds(b.src, p)
    ensures b.Write(p) == b
  {
    assert Patch(b.dst, p) == b.dst;
  }

  lemma NothingWritten(b: Buffers, from: nat, to: nat, v: Visit, vs: seq<nat>)
    requires b.Paired() && b.same && Inside(v, |b.src|) && SameOrder(from, to) && vs == Values(b.src, from, v)
    ensures b.Write(StoredRecord(v, vs, to)) == b
  {
    SameOrderRecord(Bytes(b.src, v), v.widths, from, to);
    assert StoredRecord(v, vs, to).bytes == Bytes(b.src, v);
    WriteItself(b, StoredRecord(v, vs, to));
  }

  lemma {:induction false} AuxUntouched(kind: RecordKind, b: Buffers, from: nat, to: nat, aoff: nat, left: nat)
    requires Sound(kind) && b.Paired() && b.same && SameOrder(from, to)
    ensures TranslateAux(kind, b, from, to, aoff, left).buffers == b
    decreases left
  {
    var v := Visit(aoff, kind.auxiliary);
    if left > 0 && Inside(v, |b.src|) && aoff % 4 == 0 {
      var vs := Values(b.src, from, v);
      var next, less := aoff + vs[kind.auxNext], left - 1;
      AuxStep(kind, b, from, to, aoff, left, v, vs, next, less);
      NothingWritten(b, from, to, v, vs);
      AuxUntouched(kind, b, from, to, next, less);
    }
  }

  /** Good or bad, overlapping or not: in place, records keep their bytes if the byte order stays. */
  lemma {:induction false} RecordsUntouched(kind: RecordKind, b: Buffers, from: nat, to: nat, off: nat, r: Result)
    requires Sound(kind) && b.Paired() && b.same && SameOrder(from, to) && r == TranslateFrom(kind, b, from, to, off)
    ensures r.buffers == b
    decreases |b.src| - off
  {
    var v := Visit(off, kind.main);
    if Inside(v, |b.src|) && off % 4 == 0 {
      var vs := Values(b.src, from, v);
      if WrongMain(kind, vs).None? {
        var aux, cnt, next := off + vs[kind.aux], vs[kind.cnt], off + vs[kind.next];
        NothingWritten(b, from, to, v, vs);
        MainStep(kind, b, from, to, off, v, vs, b);
        AfterMainStep(kind, b, from, to, off, vs, aux, cnt, next);
        AuxUntouched(kind, b, from, to, aux, cnt);
        var done := TranslateAux(kind, b, from, to, aux, cnt);
        if done.error.None? && next > off {
          RecordsUntouched(kind, b, from, to, next, r);
        }
      }
    }
  }
}
