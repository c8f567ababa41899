/**
 Translation of version records: linked chains of records at offsets that the records give.
 */
module ElfVersions {
  import opened Basics
  import opened ElfCoding
  import opened ElfPatches

  /** The fields of a main record and of its auxiliary records, and where the links between them are. */
  datatype RecordKind = RecordKind(main: seq<nat>, cnt: nat, aux: nat, next: nat, auxiliary: seq<nat>, auxNext: nat)

  const VERDEF := RecordKind([2, 2, 2, 2, 4, 4, 4], 3, 5, 6, [4, 4], 1)
  const VERNEED := RecordKind([2, 2, 4, 4, 4], 1, 3, 4, [4, 2, 2, 4, 4], 4)
  const VER_CURRENT: nat := 1

  predicate Sound(kind: RecordKind) {
    && |kind.main| > 0 && kind.cnt < |kind.main| && kind.aux < |kind.main| && kind.next < |kind.main|
    && kind.auxNext < |kind.auxiliary|
  }

  datatype Visit = Visit(at: nat, widths: seq<nat>)

  datatype WalkError = BadVersion | BadFormat

  datatype Walked = Walked(visits: seq<Visit>) | Bad(error: WalkError)

  function Prepend(ps: seq<Visit>, w: Walked): Walked {
    match w
    case Walked(qs) => Walked(ps + qs)
    case Bad(e) => Bad(e)
  }

  predicate Inside(v: Visit, n: nat) {
    v.at + Size(v.widths) <= n
  }

  function Bytes(src: seq<byte>, v: Visit): (b: seq<byte>)
    requires Inside(v, |src|)
    ensures |b| == Size(v.widths)
  {
    src[v.at..v.at + Size(v.widths)]
  }

  function Values(src: seq<byte>, encoding: nat, v: Visit): (vs: seq<nat>)
    requires Inside(v, |src|)
    ensures |vs| == |v.widths|
  {
    LoadAll(Bytes(src, v), v.widths, encoding)
  }

  // ----- The walk -----

  function WalkAux(kind: RecordKind, src: seq<byte>, encoding: nat, aoff: nat, left: nat): Walked
    requires Sound(kind)
    decreases left
  {
    var v := Visit(aoff, kind.auxiliary);
    if left == 0 || !Inside(v, |src|) then Walked([])
    else if aoff % 4 != 0 then Bad(BadFormat)
    else
      var step := Values(src, encoding, v)[kind.auxNext];
      if step == 0 then Walked([v]) else Prepend([v], WalkAux(kind, src, encoding, aoff + step, left - 1))
  }

  /** Terminates for every input: a step of zero ends the chain, and any other leads on. */
  function Walk(kind: RecordKind, src: seq<byte>, encoding: nat, off: nat): Walked
    requires Sound(kind)
    decreases |src| - off
  {
    var v := Visit(off, kind.main);
    if !Inside(v, |src|) then Walked([])
    else if off % 4 != 0 then Bad(BadFormat)
    else
      var vs := Values(src, encoding, v);
      if vs[0] < 1 || vs[0] > VER_CURRENT then Bad(BadVersion)
      else if vs[kind.cnt] < 1 || vs[kind.aux] == 0 then Bad(BadFormat)
      else
        var aux := WalkAux(kind, src, encoding, off + vs[kind.aux], vs[kind.cnt]);
        if aux.Bad? || vs[kind.next] == 0 then Prepend([v], aux)
        else Prepend([v] + aux.visits, Walk(kind, src, encoding, off + vs[kind.next]))
  }

  predicate AllInside(visits: seq<Visit>, n: nat) {
    forall k {:trigger visits[k]} :: 0 <= k < |visits| ==> Inside(visits[k], n)
  }

  lemma {:induction false} AuxInside(kind: RecordKind, src: seq<byte>, encoding: nat, aoff: nat, left: nat)
    requires Sound(kind) && WalkAux(kind, src, encoding, aoff, left).Walked?
    ensures AllInside(WalkAux(kind, src, encoding, aoff, left).visits, |src|)
    decreases left
  {
    var v := Visit(aoff, kind.auxiliary);
    if left > 0 && Inside(v, |src|) {
      var step := Values(src, encoding, v)[kind.auxNext];
      if step > 0 {
        AuxInside(kind, src, encoding, aoff + step, left - 1);
      }
    }
  }

  // ----- Two walks over the same records -----

  predicate SameValues(src: seq<byte>, from: nat, out: seq<byte>, to: nat, visits: seq<Visit>)
    requires |out| == |src|
  {
    forall k {:trigger visits[k]} :: 0 <= k < |visits| ==>
      Inside(visits[k], |src|) && Values(out, to, visits[k]) == Values(src, from, visits[k])
  }

  lemma {:induction false} AuxFollows(kind: RecordKind, src: seq<byte>, from: nat, out: seq<byte>, to: nat, aoff: nat,
                                      left: nat)
    requires Sound(kind) && |out| == |src| && WalkAux(kind, src, from, aoff, left).Walked?
    requires SameValues(src, from, out, to, WalkAux(kind, src, from, aoff, left).visits)
    ensures WalkAux(kind, out, to, aoff, left) == WalkAux(kind, src, from, aoff, left)
    decreases left
  {
    var v := Visit(aoff, kind.auxiliary);
    if left > 0 && Inside(v, |src|) {
      var visits := WalkAux(kind, src, from, aoff, left).visits;
      assert visits[0] == v;
      var step := Values(src, from, v)[kind.auxNext];
      if step > 0 {
        assert WalkAux(kind, src, from, aoff + step, left - 1).visits == visits[1..];
        AuxFollows(kind, src, from, out, to, aoff + step, left - 1);
      }
    }
  }

  /** The records after the first main record and its auxiliary records. */
  function Onward(kind: RecordKind, src: seq<byte>, encoding: nat, off: nat): Walked
    requires Sound(kind) && Inside(Visit(off, kind.main), |src|)
  {
    var step := Values(src, encoding, Visit(off, kind.main))[kind.next];
    if step == 0 then Walked([]) else Walk(kind, src, encoding, off + step)
  }

  function AuxOf(kind: RecordKind, src: seq<byte>, encoding: nat, off: nat): Walked
    requires Sound(kind) && Inside(Visit(off, kind.main), |src|)
  {
    var vs := Values(src, encoding, Visit(off, kind.main));
    WalkAux(kind, src, encoding, off + vs[kind.aux], vs[kind.cnt])
  }

  predicate GoodMain(kind: RecordKind, vs: seq<nat>, off: nat)
    requires Sound(kind) && |vs| == |kind.main|
  {
    off % 4 == 0 && vs[0] == VER_CURRENT && vs[kind.cnt] >= 1 && vs[kind.aux] != 0
  }

  lemma WalkParts(kind: RecordKind, src: seq<byte>, encoding: nat, off: nat)
    requires Sound(kind) && Inside(Visit(off, kind.main), |src|)
    ensures var whole := Walk(kind, src, encoding, off);
            var aux, rest := AuxOf(kind, src, encoding, off), Onward(kind, src, encoding, off);
            var good := GoodMain(kind, Values(src, encoding, Visit(off, kind.main)), off);
            && (whole.Walked? <==> good && aux.Walked? && rest.Walked?)
            && (whole.Walked? ==> whole.visits == [Visit(off, kind.main)] + aux.visits + rest.visits)
  {
  }

  lemma AllInsideSum(us: seq<Visit>, vs: seq<Visit>, n: nat)
    requires AllInside(us, n) && AllInside(vs, n)
    ensures AllInside(us + vs, n)
  {
  }

  lemma AuxOfInside(kind: RecordKind, src: seq<byte>, encoding: nat, off: nat)
    requires Sound(kind) && Inside(Visit(off, kind.main), |src|) && AuxOf(kind, src, encoding, off).Walked?
    ensures AllInside(AuxOf(kind, src, encoding, off).visits, |src|)
  {
    var vs := Values(src, encoding, Visit(off, kind.main));
    AuxInside(kind, src, encoding, off + vs[kind.aux], vs[kind.cnt]);
  }

  /** Every record that is translated lies inside the buffer. */
  lemma {:induction false} WalkInside(kind: RecordKind, src: seq<byte>, encoding: nat, off: nat)
    requires Sound(kind) && Walk(kind, src, encoding, off).Walked?
    ensures AllInside(Walk(kind, src, encoding, off).visits, |src|)
    decreases |src| - off, 1
  {
    var v := Visit(off, kind.main);
    if Inside(v, |src|) {
      WalkParts(kind, src, encoding, off);
      AuxOfInside(kind, src, encoding, off);
      OnwardInside(kind, src, encoding, off);
      AllInsideSum([v], AuxOf(kind, src, encoding, off).visits, |src|);
      AllInsideSum([v] + AuxOf(kind, src, encoding, off).visits, Onward(kind, src, encoding, off).visits, |src|);
    }
  }

  lemma {:induction false} OnwardInside(kind: RecordKind, src: seq<byte>, encoding: nat, off: nat)
    requires Sound(kind) && Inside(Visit(off, kind.main), |src|) && Onward(kind, src, encoding, off).Walked?
    ensures AllInside(Onward(kind, src, encoding, off).visits, |src|)
    decreases |src| - off, 0
  {
    var step := Values(src, encoding, Visit(off, kind.main))[kind.next];
    if step > 0 {
      WalkInside(kind, src, encoding, off + step);
    }
  }

  lemma SameValuesParts(src: seq<byte>, from: nat, out: seq<byte>, to: nat, us: seq<Visit>, vs: seq<Visit>)
    requires |out| == |src| && SameValues(src, from, out, to, us + vs)
    ensures SameValues(src, from, out, to, us) && SameValues(src, from, out, to, vs)
  {
    assert forall k {:trigger us[k]} :: 0 <= k < |us| ==> us[k] == (us + vs)[k];
    assert forall k {:trigger vs[k]} :: 0 <= k < |vs| ==> vs[k] == (us + vs)[|us| + k];
  }

  lemma PartsSame(kind: RecordKind, src: seq<byte>, from: nat, out: seq<byte>, to: nat, off: nat)
    requires Sound(kind) && |out| == |src| && Inside(Visit(off, kind.main), |src|)
    requires Values(out, to, Visit(off, kind.main)) == Values(src, from, Visit(off, kind.main))
    requires AuxOf(kind, out, to, off) == AuxOf(kind, src, from, off)
    requires Onward(kind, out, to, off) == Onward(kind, src, from, off)
    ensures Walk(kind, out, to, off) == Walk(kind, src, from, off)
  {
  }

  lemma AuxOfFollows(kind: RecordKind, src: seq<byte>, from: nat, out: seq<byte>, to: nat, off: nat)
    requires Sound(kind) && |out| == |src| && Inside(Visit(off, kind.main), |src|)
    requires Values(out, to, Visit(off, kind.main)) == Values(src, from, Visit(off, kind.main))
    requires AuxOf(kind, src, from, off).Walked? && SameValues(src, from, out, to, AuxOf(kind, src, from, off).visits)
    ensures AuxOf(kind, out, to, off) == AuxOf(kind, src, from, off)
  {
    var vs := Values(src, from, Visit(off, kind.main));
    AuxFollows(kind, src, from, out, to, off + vs[kind.aux], vs[kind.cnt]);
  }

  lemma VisitParts(kind: RecordKind, src: seq<byte>, from: nat, out: seq<byte>, to: nat, off: nat)
    requires Sound(kind) && |out| == |src| && Inside(Visit(off, kind.main), |src|) && Walk(kind, src, from, off).Walked?
    requires SameValues(src, from, out, to, Walk(kind, src, from, off).visits)
    ensures Values(out, to, Visit(off, kind.main)) == Values(src, from, Visit(off, kind.main))
    ensures AuxOf(kind, src, from, off).Walked? && SameValues(src, from, out, to, AuxOf(kind, src, from, off).visits)
    ensures Onward(kind, src, from, off).Walked? && SameValues(src, from, out, to, Onward(kind, src, from, off).visits)
  {
    WalkParts(kind, src, from, off);
    var v, aux, rest := Visit(off, kind.main), AuxOf(kind, src, from, off).visits, Onward(kind, src, from, off).visits;
    SameValuesParts(src, from, out, to, [v] + aux, rest);
    SameValuesParts(src, from, out, to, [v], aux);
    assert [v][0] == v;
  }

  lemma {:induction false} WalkFollows(kind: RecordKind, src: seq<byte>, from: nat, out: seq<byte>, to: nat, off: nat)
    requires Sound(kind) && |out| == |src| && Walk(kind, src, from, off).Walked?
    requires SameValues(src, from, out, to, Walk(kind, src, from, off).visits)
    ensures Walk(kind, out, to, off) == Walk(kind, src, from, off)
    decreases |src| - off, 1
  {
    if Inside(Visit(off, kind.main), |src|) {
      VisitParts(kind, src, from, out, to, off);
      AuxOfFollows(kind, src, from, out, to, off);
      OnwardFollows(kind, src, from, out, to, off);
      PartsSame(kind, src, from, out, to, off);
    }
  }

  lemma {:induction false} OnwardFollows(kind: RecordKind, src: seq<byte>, from: nat, out: seq<byte>, to: nat, off: nat)
    requires Sound(kind) && |out| == |src| && Inside(Visit(off, kind.main), |src|)
    requires Values(out, to, Visit(off, kind.main)) == Values(src, from, Visit(off, kind.main))
    requires Onward(kind, src, from, off).Walked? && SameValues(src, from, out, to, Onward(kind, src, from, off).visits)
    ensures Onward(kind, out, to, off) == Onward(kind, src, from, off)
    decreases |src| - off, 0
  {
    var step := Values(src, from, Visit(off, kind.main))[kind.next];
    if step > 0 {
      WalkFollows(kind, src, from, out, to, off + step);
    }
  }

  // ----- Translation -----

  function Translated(src: seq<byte>, from: nat, to: nat, v: Visit): Piece
    requires Inside(v, |src|)
  {
    Piece(v.at, Recode(Bytes(src, v), v.widths, from, to))
  }

  function AllTranslated(src: seq<byte>, from: nat, to: nat, visits: seq<Visit>): (ps: seq<Piece>)
    requires AllInside(visits, |src|)
    ensures |ps| == |visits| && Fits(ps, |src|)
  {
    seq(|visits|, k requires 0 <= k < |visits| => Translated(src, from, to, visits[k]))
  }

  /** Where two records overlap, their translations say the same. */
  predicate Agreeing(src: seq<byte>, from: nat, to: nat, visits: seq<Visit>)
    requires AllInside(visits, |src|)
  {
    forall j, k {:trigger visits[j], visits[k]} :: 0 <= j < k < |visits| ==>
      Compatible(Translated(src, from, to, visits[j]), Translated(src, from, to, visits[k]))
  }

  predicate VisitsApart(u: Visit, v: Visit) {
    u.at + Size(u.widths) <= v.at || v.at + Size(v.widths) <= u.at
  }

  lemma LaterCompatible(src: seq<byte>, from: nat, to: nat, visits: seq<Visit>, k: nat)
    requires AllInside(visits, |src|) && Agreeing(src, from, to, visits) && k < |visits|
    ensures var ps := AllTranslated(src, from, to, visits);
            forall j {:trigger ps[j]} :: k < j < |ps| ==> Compatible(ps[k], ps[j])
  {
    var ps := AllTranslated(src, from, to, visits);
    forall j {:trigger ps[j]} | k < j < |ps|
      ensures Compatible(ps[k], ps[j])
    {
      assert ps[j] == Translated(src, from, to, visits[j]) && ps[k] == Translated(src, from, to, visits[k]);
    }
  }

  lemma TranslatedHolds(src: seq<byte>, from: nat, to: nat, visits: seq<Visit>, dst: seq<byte>, k: nat)
    requires AllInside(visits, |src|) && Agreeing(src, from, to, visits) && |dst| == |src| && k < |visits|
    ensures var out := PatchAll(dst, AllTranslated(src, from, to, visits));
            && Bytes(out, visits[k]) == Translated(src, from, to, visits[k]).bytes
            && Values(out, to, visits[k]) == Values(src, from, visits[k])
            && Translated(out, to, from, visits[k]).bytes == Bytes(src, visits[k])
  {
    var ps := AllTranslated(src, from, to, visits);
    LaterCompatible(src, from, to, visits, k);
    PieceHolds(dst, ps, k);
    TranslatedBack(src, from, to, visits[k], PatchAll(dst, ps));
  }

  lemma TranslatedBack(src: seq<byte>, from: nat, to: nat, v: Visit, out: seq<byte>)
    requires Inside(v, |src|) && |out| == |src| && Holds(out, Translated(src, from, to, v))
    ensures Bytes(out, v) == Translated(src, from, to, v).bytes && Values(out, to, v) == Values(src, from, v)
    ensures Translated(out, to, from, v).bytes == Bytes(src, v)
  {
    RecodedBack(Bytes(src, v), v.widths, from, to);
  }

  /** A record with the values that it had is there as it was translated. */
  lemma ValuesAreHeld(src: seq<byte>, from: nat, to: nat, v: Visit, out: seq<byte>)
    requires Inside(v, |src|) && |out| == |src| && Values(out, to, v) == Values(src, from, v)
    ensures Holds(out, Translated(src, from, to, v))
  {
    LoadedAll(Bytes(out, v), v.widths, to);
  }

  /** The records are all there, with the values that they had, if and only if their translations agree where they
      overlap. */
  lemma ValuesCarriedOver(src: seq<byte>, from: nat, to: nat, visits: seq<Visit>, dst: seq<byte>)
    requires AllInside(visits, |src|) && |dst| == |src|
    ensures SameValues(src, from, PatchAll(dst, AllTranslated(src, from, to, visits)), to, visits)
       <==> Agreeing(src, from, to, visits)
  {
    var out := PatchAll(dst, AllTranslated(src, from, to, visits));
    if Agreeing(src, from, to, visits) {
      forall k {:trigger visits[k]} | 0 <= k < |visits|
        ensures Values(out, to, visits[k]) == Values(src, from, visits[k])
      {
        TranslatedHolds(src, from, to, visits, dst, k);
      }
    }
    if SameValues(src, from, out, to, visits) {
      forall j, k {:trigger visits[j], visits[k]} | 0 <= j < k < |visits|
        ensures Compatible(Translated(src, from, to, visits[j]), Translated(src, from, to, visits[k]))
      {
        ValuesAreHeld(src, from, to, visits[j], out);
        ValuesAreHeld(src, from, to, visits[k], out);
        HeldTogether(out, Translated(src, from, to, visits[j]), Translated(src, from, to, visits[k]));
      }
    }
  }

  /** Then the walk over the translated buffer visits the same records in the same order. */
  lemma WalkBack(kind: RecordKind, src: seq<byte>, from: nat, to: nat, dst: seq<byte>, visits: seq<Visit>,
                 out: seq<byte>)
    requires Sound(kind) && |dst| == |src| && Walk(kind, src, from, 0) == Walked(visits) && AllInside(visits, |src|)
    requires Agreeing(src, from, to, visits) && out == PatchAll(dst, AllTranslated(src, from, to, visits))
    ensures Walk(kind, out, to, 0) == Walked(visits)
  {
    ValuesCarriedOver(src, from, to, visits, dst);
    WalkFollows(kind, src, from, out, to, 0);
  }

  /** And the translations back agree too, as they are what the records were. */
  lemma AgreeBack(src: seq<byte>, from: nat, to: nat, dst: seq<byte>, visits: seq<Visit>, out: seq<byte>)
    requires AllInside(visits, |src|) && |dst| == |src|
    requires Agreeing(src, from, to, visits) && out == PatchAll(dst, AllTranslated(src, from, to, visits))
    ensures Agreeing(out, to, from, visits)
    ensures forall k {:trigger visits[k]} :: 0 <= k < |visits| ==>
              Translated(out, to, from, visits[k]).bytes == Bytes(src, visits[k])
  {
    forall k {:trigger visits[k]} | 0 <= k < |visits|
      ensures Translated(out, to, from, visits[k]).bytes == Bytes(src, visits[k])
      ensures Holds(src, Translated(out, to, from, visits[k]))
    {
      TranslatedHolds(src, from, to, visits, dst, k);
    }
    forall j, k {:trigger visits[j], visits[k]} | 0 <= j < k < |visits|
      ensures Compatible(Translated(out, to, from, visits[j]), Translated(out, to, from, visits[k]))
    {
      HeldTogether(src, Translated(out, to, from, visits[j]), Translated(out, to, from, visits[k]));
    }
  }

  /** The translation carries every record over if and only if the records agree where they overlap. If they do, the
      walk back over the translated buffer visits the same records in the same order, and translating back restores
      every one of them. */
  lemma VersionsRoundTrip(kind: RecordKind, src: seq<byte>, from: nat, to: nat, dst: seq<byte>, dst2: seq<byte>)
    requires Sound(kind) && |dst| == |src| == |dst2| && Walk(kind, src, from, 0).Walked?
    ensures var visits := Walk(kind, src, from, 0).visits;
            && AllInside(visits, |src|)
            && var out := PatchAll(dst, AllTranslated(src, from, to, visits));
               && (SameValues(src, from, out, to, visits) <==> Agreeing(src, from, to, visits))
               && (Agreeing(src, from, to, visits) ==>
                     && Walk(kind, out, to, 0) == Walked(visits)
                     && var again := PatchAll(dst2, AllTranslated(out, to, from, visits));
                        forall k :: 0 <= k < |visits| ==> Bytes(again, visits[k]) == Bytes(src, visits[k]))
  {
    WalkInside(kind, src, from, 0);
    var visits := Walk(kind, src, from, 0).visits;
    var out := PatchAll(dst, AllTranslated(src, from, to, visits));
    ValuesCarriedOver(src, from, to, visits, dst);
    if Agreeing(src, from, to, visits) {
      WalkBack(kind, src, from, to, dst, visits, out);
      AgreeBack(src, from, to, dst, visits, out);
      forall k | 0 <= k < |visits|
        ensures Bytes(PatchAll(dst2, AllTranslated(out, to, from, visits)), visits[k]) == Bytes(src, visits[k])
      {
        TranslatedHolds(out, to, from, visits, dst2, k);
      }
    }
  }
}
