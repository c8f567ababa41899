/**
 The version record translators, step by step: they read from one buffer and write into another, which may
 be the same.
 */
module ElfVersionsXlt {
  import opened Basics
  import opened ElfCoding
  import opened ElfPatches
  import opened ElfVersions

  /** The buffer that is read and the buffer that is written; `same` if they are one. */
  datatype Buffers = Buffers(src: seq<byte>, dst: seq<byte>, same: bool)
  {
    predicate Paired() {
      |src| == |dst| && (same ==> src == dst)
    }

    function Write(p: Piece): (b: Buffers)
      requires Paired() && p.at + |p.bytes| <= |dst|
      ensures b.Paired() && |b.src| == |src| && b.same == same
    {
      Buffers(if same then Patch(dst, p) else src, Patch(dst, p), same)
    }
  }

  datatype Result = Result(buffers: Buffers, error: Option<WalkError>)

  /** A record in the other encoding. */
  function StoredRecord(v: Visit, vs: seq<nat>, to: nat): (p: Piece)
    requires |vs| == |v.widths|
    ensures p.at == v.at && |p.bytes| == Size(v.widths)
  {
    Piece(v.at, StoreAll(vs, v.widths, to))
  }

  function TranslateAux(kind: RecordKind, b: Buffers, from: nat, to: nat, aoff: nat, left: nat): (r: Result)
    requires Sound(kind) && b.Paired()
    ensures r.buffers.Paired() && |r.buffers.src| == |b.src| && r.buffers.same == b.same
    decreases left
  {
    var v := Visit(aoff, kind.auxiliary);
    if left == 0 || !Inside(v, |b.src|) then Result(b, None)
    else if aoff % 4 != 0 then Result(b, Some(BadFormat))
    else
      var vs := Values(b.src, from, v);
      var b', next, less := b.Write(StoredRecord(v, vs, to)), aoff + vs[kind.auxNext], left - 1;
      if next == aoff then Result(b', None) else TranslateAux(kind, b', from, to, next, less)
  }

  function WrongMain(kind: RecordKind, vs: seq<nat>): Option<WalkError>
    requires Sound(kind) && |vs| == |kind.main|
  {
    if vs[0] < 1 || vs[0] > VER_CURRENT then Some(BadVersion)
    else if vs[kind.cnt] < 1 || vs[kind.aux] == 0 then Some(BadFormat)
    else None
  }

  /** What the translator does from the main record at `off` on. A wrong record ends it; what was written stays. */
  function TranslateFrom(kind: RecordKind, b: Buffers, from: nat, to: nat, off: nat): (r: Result)
    requires Sound(kind) && b.Paired()
    ensures r.buffers.Paired() && |r.buffers.src| == |b.src| && r.buffers.same == b.same
    decreases |b.src| - off, 2
  {
    var v := Visit(off, kind.main);
    if !Inside(v, |b.src|) then Result(b, None)
    else if off % 4 != 0 then Result(b, Some(BadFormat))
    else
      var vs := Values(b.src, from, v);
      if WrongMain(kind, vs).Some? then Result(b, WrongMain(kind, vs))
      else AfterMain(kind, b.Write(StoredRecord(v, vs, to)), from, to, off, vs)
  }

  function AfterMain(kind: RecordKind, b: Buffers, from: nat, to: nat, off: nat, vs: seq<nat>): (r: Result)
    requires Sound(kind) && b.Paired() && off <= |b.src| && |vs| == |kind.main|
    ensures r.buffers.Paired() && |r.buffers.src| == |b.src| && r.buffers.same == b.same
    decreases |b.src| - off, 1
  {
    var aux, cnt, next := off + vs[kind.aux], vs[kind.cnt], off + vs[kind.next];
    Onwards(kind, TranslateAux(kind, b, from, to, aux, cnt), from, to, off, next)
  }

  /** What follows when the auxiliary records of the main record at `off` are done. */
  function Onwards(kind: RecordKind, done: Result, from: nat, to: nat, off: nat, next: nat): (r: Result)
    requires Sound(kind) && done.buffers.Paired() && off <= |done.buffers.src| && off <= next
    ensures r.buffers.Paired() && |r.buffers.src| == |done.buffers.src| && r.buffers.same == done.buffers.same
    decreases |done.buffers.src| - off, 0
  {
    if done.error.Some? || next == off then done else TranslateFrom(kind, done.buffers, from, to, next)
  }

  lemma AuxStep(kind: RecordKind, b: Buffers, from: nat, to: nat, aoff: nat, left: nat, v: Visit, vs: seq<nat>,
                next: nat, less: nat)
    requires Sound(kind) && b.Paired() && left > 0 && less == left - 1
    requires v == Visit(aoff, kind.auxiliary) && Inside(v, |b.src|) && aoff % 4 == 0
    requires vs == Values(b.src, from, v) && next == aoff + vs[kind.auxNext]
    ensures var b' := b.Write(StoredRecord(v, vs, to));
            TranslateAux(kind, b, from, to, aoff, left) ==
            if next == aoff then Result(b', None) else TranslateAux(kind, b', from, to, next, less)
  {
  }

  lemma AfterMainStep(kind: RecordKind, b: Buffers, from: nat, to: nat, off: nat, vs: seq<nat>, aux: nat, cnt: nat,
                      next: nat)
    requires Sound(kind) && b.Paired() && off <= |b.src| && |vs| == |kind.main|
    requires aux == off + vs[kind.aux] && cnt == vs[kind.cnt] && next == off + vs[kind.next]
    ensures AfterMain(kind, b, from, to, off, vs)
            == Onwards(kind, TranslateAux(kind, b, from, to, aux, cnt), from, to, off, next)
  {
  }

  lemma MainStep(kind: RecordKind, b: Buffers, from: nat, to: nat, off: nat, v: Visit, vs: seq<nat>, b': Buffers)
    requires Sound(kind) && b.Paired() && v == Visit(off, kind.main) && Inside(v, |b.src|) && off % 4 == 0
    requires vs == Values(b.src, from, v) && WrongMain(kind, vs).None? && b' == b.Write(StoredRecord(v, vs, to))
    ensures TranslateFrom(kind, b, from, to, off) == AfterMain(kind, b', from, to, off, vs)
  {
  }

  // ----- The translator itself -----

  ghost function State(dst: array<byte>, src: array<byte>): Buffers
    reads dst, src
  {
    Buffers(src[..], dst[..], src == dst)
  }

  method WriteRecord(dst: array<byte>, src: array<byte>, v: Visit, vs: seq<nat>, to: nat)
    requires src.Length == dst.Length && Inside(v, src.Length) && |vs| == |v.widths|
    modifies dst
    ensures State(dst, src) == old(State(dst, src)).Write(StoredRecord(v, vs, to))
  {
    Put(dst, v.at, StoreAll(vs, v.widths, to));
  }

  method XltAuxRecord(kind: RecordKind, dst: array<byte>, src: array<byte>, from: nat, to: nat, aoff: nat,
                      ghost left: nat, ghost less: nat)
    returns (next: nat)
    requires Sound(kind) && src.Length == dst.Length && left > 0 && less == left - 1
    requires Inside(Visit(aoff, kind.auxiliary), src.Length) && aoff % 4 == 0
    modifies dst
    ensures TranslateAux(kind, old(State(dst, src)), from, to, aoff, left)
         == if next == aoff then Result(State(dst, src), None)
             else TranslateAux(kind, State(dst, src), from, to, next, less)
  {
    var v := Visit(aoff, kind.auxiliary);
    var vs := Values(src[..], from, v);
    next := aoff + vs[kind.auxNext];
    AuxStep(kind, State(dst, src), from, to, aoff, left, v, vs, next, less);
    WriteRecord(dst, src, v, vs, to);
  }

  method XltAux(kind: RecordKind, dst: array<byte>, src: array<byte>, from: nat, to: nat, aux: nat, cnt: nat)
    returns (error: Option<WalkError>)
    requires Sound(kind) && src.Length == dst.Length
    modifies dst
    ensures Result(State(dst, src), error) == TranslateAux(kind, old(State(dst, src)), from, to, aux, cnt)
  {
    ghost var goal, left := TranslateAux(kind, State(dst, src), from, to, aux, cnt), cnt;
    var aoff, acount := aux, 0;
    while acount < cnt
      invariant acount + left == cnt && goal == TranslateAux(kind, State(dst, src), from, to, aoff, left)
    {
      if !Inside(Visit(aoff, kind.auxiliary), src.Length) {
        return None;
      }
      if aoff % 4 != 0 {
        return Some(BadFormat);
      }
      ghost var less := left - 1;
      var next := XltAuxRecord(kind, dst, src, from, to, aoff, left, less);
      if next == aoff {
        return None;
      }
      aoff := next;
      acount, left := acount + 1, less;
    }
    error := None;
  }

  /** Reads, checks and writes the main record at `off`. */
  method XltMainRecord(kind: RecordKind, dst: array<byte>, src: array<byte>, from: nat, to: nat, off: nat)
    returns (error: Option<WalkError>, aux: nat, cnt: nat, next: nat)
    requires Sound(kind) && src.Length == dst.Length && Inside(Visit(off, kind.main), src.Length)
    modifies dst
    ensures var goal := TranslateFrom(kind, old(State(dst, src)), from, to, off);
            if error.Some? then goal == Result(State(dst, src), error)
            else next >= off && goal == Onwards(kind, TranslateAux(kind, State(dst, src), from, to, aux, cnt), from,
                to, off, next)
  {
    aux, cnt, next := 0, 0, off;
    var v := Visit(off, kind.main);
    if off % 4 != 0 {
      error := Some(BadFormat);
      return;
    }
    var vs := Values(src[..], from, v);
    if vs[0] < 1 || vs[0] > VER_CURRENT {
      error := Some(BadVersion);
      return;
    }
    if vs[kind.cnt] < 1 || vs[kind.aux] == 0 {
      error := Some(BadFormat);
      return;
    }
    error, aux, cnt, next := None, off + vs[kind.aux], vs[kind.cnt], off + vs[kind.next];
    MainStep(kind, State(dst, src), from, to, off, v, vs, State(dst, src).Write(StoredRecord(v, vs, to)));
    WriteRecord(dst, src, v, vs, to);
    AfterMainStep(kind, State(dst, src), from, to, off, vs, aux, cnt, next);
  }

  /** Translates the version records of `src` into `dst`, which may be `src` itself. */
  method Xlt(kind: RecordKind, dst: array<byte>, src: array<byte>, from: nat, to: nat)
    returns (error: Option<WalkError>)
    requires Sound(kind) && src.Length == dst.Length
    modifies dst
    ensures Result(State(dst, src), error) == TranslateFrom(kind, old(State(dst, src)), from, to, 0)
  {
    ghost var goal := TranslateFrom(kind, State(dst, src), from, to, 0);
    var off := 0;
    while Inside(Visit(off, kind.main), src.Length)
      invariant goal == TranslateFrom(kind, State(dst, src), from, to, off)
      decreases src.Length - off
    {
      var aux, cnt, next;
      error, aux, cnt, next := XltMainRecord(kind, dst, src, from, to, off);
      if error.Some? {
        return;
      }
      error := XltAux(kind, dst, src, from, to, aux, cnt);
      if error.Some? || next == off {
        return;
      }
      off := next;
    }
    error := None;
  }

  // ----- What it amounts to -----

  /** The translations of the records `visits` leave the record `v` as it is. */
  predicate Spared(src: seq<byte>, from: nat, to: nat, visits: seq<Visit>, v: Visit) {
    && AllInside(visits, |src|) && Inside(v, |src|)
    && forall k {:trigger visits[k]} :: 0 <= k < |visits| ==>
         Compatible(Piece(v.at, Bytes(src, v)), Translated(src, from, to, visits[k]))
  }

  /** When its turn comes, each record is still as it was at the start. */
  predicate AllSpared(src: seq<byte>, from: nat, to: nat, visits: seq<Visit>) {
    || visits == []
    || (var n := |visits| - 1;
        Spared(src, from, to, visits[..n], visits[n]) && AllSpared(src, from, to, visits[..n]))
  }

  /** What the buffers hold after the records `done` were translated. */
  predicate Progress(b: Buffers, b0: Buffers, from: nat, to: nat, done: seq<Visit>)
    requires b0.Paired()
  {
    && b.Paired() && |b.src| == |b0.src| && b.same == b0.same && AllInside(done, |b0.src|)
    && b.dst == PatchAll(b0.dst, AllTranslated(b0.src, from, to, done))
    && (!b.same ==> b.src == b0.src)
  }

  lemma Unread(b: Buffers, b0: Buffers, from: nat, to: nat, done: seq<Visit>, v: Visit)
    requires b0.Paired() && Progress(b, b0, from, to, done) && Inside(v, |b0.src|)
    requires b.same ==> Spared(b0.src, from, to, done, v)
    ensures Values(b.src, from, v) == Values(b0.src, from, v)
  {
    if b.same {
      var p, ps := Piece(v.at, Bytes(b0.src, v)), AllTranslated(b0.src, from, to, done);
      forall k {:trigger ps[k]} | 0 <= k < |ps|
        ensures Compatible(p, ps[k])
      {
        assert ps[k] == Translated(b0.src, from, to, done[k]);
      }
      StillHolds(b0.dst, ps, p);
    }
  }

  lemma OneMore(b: Buffers, b0: Buffers, from: nat, to: nat, done: seq<Visit>, v: Visit)
    requires b0.Paired() && Progress(b, b0, from, to, done) && Inside(v, |b0.src|)
    requires b.same ==> Spared(b0.src, from, to, done, v)
    ensures Progress(b.Write(StoredRecord(v, Values(b.src, from, v), to)), b0, from, to, done + [v])
    ensures Values(b.src, from, v) == Values(b0.src, from, v)
  {
    Unread(b, b0, from, to, done, v);
    var ps, p := AllTranslated(b0.src, from, to, done), Translated(b0.src, from, to, v);
    assert AllTranslated(b0.src, from, to, done + [v]) == ps + [p];
    PatchLast(b0.dst, ps, p);
  }

  lemma {:induction false} PrefixSpared(src: seq<byte>, from: nat, to: nat, visits: seq<Visit>, n: nat)
    requires AllSpared(src, from, to, visits) && n <= |visits|
    ensures AllSpared(src, from, to, visits[..n])
    decreases |visits|
  {
    if n < |visits| {
      PrefixSpared(src, from, to, visits[..|visits| - 1], n);
      assert visits[..|visits| - 1][..n] == visits[..n];
    } else {
      assert visits[..n] == visits;
    }
  }

  /** The record `v` is the next of the walk `whole` after the records `seen`. */
  lemma NextSpared(src: seq<byte>, from: nat, to: nat, done: seq<Visit>, whole: seq<Visit>, seen: seq<Visit>, v: Visit)
    requires AllSpared(src, from, to, done + whole) && seen + [v] <= whole
    ensures Spared(src, from, to, done + seen, v)
  {
    var n := |done + seen| + 1;
    PrefixSpared(src, from, to, done + whole, n);
    assert (done + whole)[..n] == done + seen + [v];
    assert (done + seen + [v])[..n - 1] == done + seen;
  }

  lemma Reassociate(a: seq<Visit>, v: Visit, c: seq<Visit>)
    ensures a + ([v] + c) == (a + [v]) + c
  {
  }

  lemma FirstIsSpared(b: Buffers, b0: Buffers, from: nat, to: nat, done: seq<Visit>, visits: seq<Visit>, v: Visit)
    requires visits != [] && visits[0] == v && (b.same ==> AllSpared(b0.src, from, to, done + visits))
    ensures b.same ==> Spared(b0.src, from, to, done, v)
  {
    if b.same {
      assert [] + [v] <= visits && done + [] == done;
      NextSpared(b0.src, from, to, done, visits, [], v);
    }
  }

  /** One record further in a good chain of auxiliary records. */
  lemma AuxRecord(kind: RecordKind, b: Buffers, b0: Buffers, from: nat, to: nat, done: seq<Visit>, aoff: nat, left: nat,
                  visits: seq<Visit>, v: Visit)
    returns (b': Buffers, next: nat, less: nat, rest: seq<Visit>)
    requires Sound(kind) && b0.Paired() && Progress(b, b0, from, to, done) && left > 0
    requires v == Visit(aoff, kind.auxiliary) && Inside(v, |b0.src|)
    requires WalkAux(kind, b0.src, from, aoff, left) == Walked(visits)
    requires b.same ==> AllSpared(b0.src, from, to, done + visits)
    ensures visits == [v] + rest && done + visits == (done + [v]) + rest && next >= aoff && less == left - 1
    ensures Progress(b', b0, from, to, done + [v]) && b'.same == b.same
    ensures if next == aoff then rest == [] else WalkAux(kind, b0.src, from, next, less) == Walked(rest)
    ensures TranslateAux(kind, b, from, to, aoff, left)
         == if next == aoff then Result(b', None) else TranslateAux(kind, b', from, to, next, less)
  {
    var vs := Values(b0.src, from, v);
    next, less, rest := aoff + vs[kind.auxNext], left - 1, visits[1..];
    FirstIsSpared(b, b0, from, to, done, visits, v);
    OneMore(b, b0, from, to, done, v);
    b' := b.Write(StoredRecord(v, vs, to));
    AuxStep(kind, b, from, to, aoff, left, v, vs, next, less);
    Reassociate(done, v, rest);
  }

  /** The auxiliary records of a good chain are translated one by one, even in place if each is still as it was. */
  lemma {:induction false} AuxTranslated(kind: RecordKind, b: Buffers, b0: Buffers, from: nat, to: nat,
                                         done: seq<Visit>, aoff: nat, left: nat, visits: seq<Visit>, r: Result)
    requires Sound(kind) && b0.Paired() && Progress(b, b0, from, to, done)
    requires WalkAux(kind, b0.src, from, aoff, left) == Walked(visits)
    requires b.same ==> AllSpared(b0.src, from, to, done + visits)
    requires r == TranslateAux(kind, b, from, to, aoff, left)
    ensures r.error == None && Progress(r.buffers, b0, from, to, done + visits)
    decreases left
  {
    var v := Visit(aoff, kind.auxiliary);
    if left == 0 || !Inside(v, |b0.src|) {
      assert done + visits == done;
    } else {
      var b', next, less, rest := AuxRecord(kind, b, b0, from, to, done, aoff, left, visits, v);
      if next > aoff {
        AuxTranslated(kind, b', b0, from, to, done + [v], next, less, rest, r);
      } else {
        assert done + [v] + rest == done + [v];
      }
    }
  }

  /** The parts of a good chain from the main record `v` on. */
  lemma WalkPieces(kind: RecordKind, src: seq<byte>, from: nat, off: nat, visits: seq<Visit>, v: Visit, vs: seq<nat>)
    returns (aux: nat, cnt: nat, next: nat, auxiliaries: seq<Visit>, rest: seq<Visit>)
    requires Sound(kind) && v == Visit(off, kind.main) && Inside(v, |src|) && vs == Values(src, from, v)
    requires Walk(kind, src, from, off) == Walked(visits)
    ensures off % 4 == 0 && WrongMain(kind, vs).None?
    ensures aux == off + vs[kind.aux] && cnt == vs[kind.cnt] && next == off + vs[kind.next]
    ensures visits == [v] + auxiliaries + rest && WalkAux(kind, src, from, aux, cnt) == Walked(auxiliaries)
    ensures if next == off then rest == [] else Walk(kind, src, from, next) == Walked(rest)
  {
    WalkParts(kind, src, from, off);
    aux, cnt, next := off + vs[kind.aux], vs[kind.cnt], off + vs[kind.next];
    auxiliaries, rest := AuxOf(kind, src, from, off).visits, Onward(kind, src, from, off).visits;
  }

  /** One main record further in a good chain: where its auxiliary records and the next main record are. */
  lemma MainRecord(kind: RecordKind, b: Buffers, b0: Buffers, from: nat, to: nat, done: seq<Visit>, off: nat,
                   visits: seq<Visit>, v: Visit)
    returns (b': Buffers, aux: nat, cnt: nat, next: nat, auxiliaries: seq<Visit>, rest: seq<Visit>)
    requires Sound(kind) && b0.Paired() && Progress(b, b0, from, to, done)
    requires v == Visit(off, kind.main) && Inside(v, |b0.src|)
    requires Walk(kind, b0.src, from, off) == Walked(visits) && (b.same ==> AllSpared(b0.src, from, to, done + visits))
    ensures visits == [v] + auxiliaries + rest && next >= off
    ensures Progress(b', b0, from, to, done + [v]) && b'.same == b.same
    ensures WalkAux(kind, b0.src, from, aux, cnt) == Walked(auxiliaries)
    ensures if next == off then rest == [] else Walk(kind, b0.src, from, next) == Walked(rest)
    ensures TranslateFrom(kind, b, from, to, off)
            == Onwards(kind, TranslateAux(kind, b', from, to, aux, cnt), from, to, off, next)
  {
    var vs := Values(b0.src, from, v);
    aux, cnt, next, auxiliaries, rest := WalkPieces(kind, b0.src, from, off, visits, v, vs);
    FirstIsSpared(b, b0, from, to, done, visits, v);
    OneMore(b, b0, from, to, done, v);
    b' := b.Write(StoredRecord(v, vs, to));
    MainStep(kind, b, from, to, off, v, vs, b');
    AfterMainStep(kind, b', from, to, off, vs, aux, cnt, next);
  }

  lemma Regroup(src: seq<byte>, from: nat, to: nat, done: seq<Visit>, v: Visit, auxiliaries: seq<Visit>,
                rest: seq<Visit>)
    ensures done + ([v] + auxiliaries + rest) == ((done + [v]) + auxiliaries) + rest
    ensures AllSpared(src, from, to, done + ([v] + auxiliaries + rest)) ==>
              AllSpared(src, from, to, (done + [v]) + auxiliaries)
  {
    var all, n := done + ([v] + auxiliaries + rest), |done| + 1 + |auxiliaries|;
    if AllSpared(src, from, to, all) {
      PrefixSpared(src, from, to, all, n);
      assert all[..n] == (done + [v]) + auxiliaries;
    }
  }

  /** Good records are translated one by one: into another buffer always, in place if each is still as it was when its
      turn comes. */
  lemma {:induction false} RecordsTranslated(kind: RecordKind, b: Buffers, b0: Buffers, from: nat, to: nat,
                                             done: seq<Visit>, off: nat, visits: seq<Visit>, r: Result)
    requires Sound(kind) && b0.Paired() && Progress(b, b0, from, to, done)
    requires Walk(kind, b0.src, from, off) == Walked(visits) && (b.same ==> AllSpared(b0.src, from, to, done + visits))
    requires r == TranslateFrom(kind, b, from, to, off)
    ensures r.error == None && Progress(r.buffers, b0, from, to, done + visits)
    decreases |b0.src| - off
  {
    var v := Visit(off, kind.main);
    if !Inside(v, |b0.src|) {
      assert done + visits == done;
    } else {
      var b', aux, cnt, next, auxiliaries, rest := MainRecord(kind, b, b0, from, to, done, off, visits, v);
      Regroup(b0.src, from, to, done, v, auxiliaries, rest);
      var a := TranslateAux(kind, b', from, to, aux, cnt);
      AuxTranslated(kind, b', b0, from, to, done + [v], aux, cnt, auxiliaries, a);
      if next > off {
        RecordsTranslated(kind, a.buffers, b0, from, to, (done + [v]) + auxiliaries, next, rest, r);
      } else {
        assert (done + [v]) + auxiliaries + rest == (done + [v]) + auxiliaries;
      }
    }
  }

  /** The translator on whole buffers. */
  lemma WholeTranslated(kind: RecordKind, b: Buffers, from: nat, to: nat)
    requires Sound(kind) && b.Paired() && Walk(kind, b.src, from, 0).Walked?
    requires b.same ==> AllSpared(b.src, from, to, Walk(kind, b.src, from, 0).visits)
    ensures var r, visits := TranslateFrom(kind, b, from, to, 0), Walk(kind, b.src, from, 0).visits;
            r.error == None && AllInside(visits, |b.src|)
                && r.buffers.dst == PatchAll(b.dst, AllTranslated(b.src, from, to, visits))
  {
    var visits := Walk(kind, b.src, from, 0).visits;
    assert [] + visits == visits && AllTranslated(b.src, from, to, []) == [];
    RecordsTranslated(kind, b, b, from, to, [], 0, visits, TranslateFrom(kind, b, from, to, 0));
  }

  lemma WalkAuxStep(kind: RecordKind, src: seq<byte>, from: nat, aoff: nat, left: nat, v: Visit, vs: seq<nat>,
                    next: nat, less: nat)
    requires Sound(kind) && left > 0 && less == left - 1
    requires v == Visit(aoff, kind.auxiliary) && Inside(v, |src|) && aoff % 4 == 0
    requires vs == Values(src, from, v) && next == aoff + vs[kind.auxNext]
    ensures WalkAux(kind, src, from, aoff, left)
         == if next == aoff then Walked([v]) else Prepend([v], WalkAux(kind, src, from, next, less))
  {
  }

  lemma {:induction false} AuxRefused(kind: RecordKind, b: Buffers, from: nat, to: nat, aoff: nat, left: nat,
                                      r: Result, w: Walked)
    requires Sound(kind) && b.Paired() && !b.same
    requires r == TranslateAux(kind, b, from, to, aoff, left) && w == WalkAux(kind, b.src, from, aoff, left)
    ensures r.buffers.src == b.src && r.error == if w.Bad? then Some(w.error) else None
    decreases left
  {
    var v := Visit(aoff, kind.auxiliary);
    if left > 0 && Inside(v, |b.src|) && aoff % 4 == 0 {
      var vs := Values(b.src, from, v);
      var next, less := aoff + vs[kind.auxNext], left - 1;
      AuxStep(kind, b, from, to, aoff, left, v, vs, next, less);
      WalkAuxStep(kind, b.src, from, aoff, left, v, vs, next, less);
      if next > aoff {
        var b', w' := b.Write(StoredRecord(v, vs, to)), WalkAux(kind, b.src, from, next, less);
        AuxRefused(kind, b', from, to, next, less, r, w');
      }
    }
  }

  /** An error in the auxiliary records or in what follows is an error of the whole. */
  lemma WalkStep(kind: RecordKind, src: seq<byte>, from: nat, off: nat, v: Visit, vs: seq<nat>, aux: nat, cnt: nat,
                 next: nat, auxiliaries: Walked, rest: Walked)
    requires Sound(kind) && v == Visit(off, kind.main) && Inside(v, |src|) && off % 4 == 0
    requires vs == Values(src, from, v) && WrongMain(kind, vs).None?
    requires aux == off + vs[kind.aux] && cnt == vs[kind.cnt] && next == off + vs[kind.next]
    requires auxiliaries == WalkAux(kind, src, from, aux, cnt) && rest == Walk(kind, src, from, next)
    ensures var w := Walk(kind, src, from, off);
            if auxiliaries.Bad? then w == auxiliaries else if next > off && rest.Bad? then w == rest else w.Walked?
  {
  }

  /** Into another buffer, the translator refuses exactly the records that the walk refuses. */
  lemma {:induction false} RecordsRefused(kind: RecordKind, b: Buffers, from: nat, to: nat, off: nat, r: Result,
                                          w: Walked)
    requires Sound(kind) && b.Paired() && !b.same
    requires r == TranslateFrom(kind, b, from, to, off) && w == Walk(kind, b.src, from, off)
    ensures r.error == if w.Bad? then Some(w.error) else None
    decreases |b.src| - off
  {
    var v := Visit(off, kind.main);
    if Inside(v, |b.src|) && off % 4 == 0 {
      var vs := Values(b.src, from, v);
      if WrongMain(kind, vs).None? {
        var b' := b.Write(StoredRecord(v, vs, to));
        var aux, cnt, next := off + vs[kind.aux], vs[kind.cnt], off + vs[kind.next];
        MainStep(kind, b, from, to, off, v, vs, b');
        AfterMainStep(kind, b', from, to, off, vs, aux, cnt, next);
        var a, wa, rest := TranslateAux(kind, b', from, to, aux, cnt), WalkAux(kind, b.src, from, aux, cnt),
            Walk(kind, b.src, from, next);
        WalkStep(kind, b.src, from, off, v, vs, aux, cnt, next, wa, rest);
        AuxRefused(kind, b', from, to, aux, cnt, a, wa);
        if a.error.None? && next > off {
          RecordsRefused(kind, a.buffers, from, to, next, r, rest);
        }
      }
    }
  }
}
