/**
 Writing pieces of bytes into a buffer, one after another.
 */
module ElfPatches {
  import opened Basics

  datatype Piece = Piece(at: nat, bytes: seq<byte>)

  predicate Fits(ps: seq<Piece>, n: nat) {
    forall k {:trigger ps[k]} :: 0 <= k < |ps| ==> ps[k].at + |ps[k].bytes| <= n
  }

  function Patch(b: seq<byte>, p: Piece): (r: seq<byte>)
    requires p.at + |p.bytes| <= |b|
    ensures |r| == |b|
  {
    b[..p.at] + p.bytes + b[p.at + |p.bytes|..]
  }

  function PatchAll(b: seq<byte>, ps: seq<Piece>): (r: seq<byte>)
    requires Fits(ps, |b|)
    ensures |r| == |b|
    decreases |ps|
  {
    if ps == [] then b else PatchAll(Patch(b, ps[0]), ps[1..])
  }

  predicate Writes(p: Piece, i: nat) {
    p.at <= i < p.at + |p.bytes|
  }

  /** What a piece puts at place `i` of the buffer. */
  function ByteAt(p: Piece, i: nat): byte
    requires Writes(p, i)
  {
    p.bytes[i - p.at]
  }

  /** Writing `q` after `p` leaves `p` as it was written: where both write, they write the same. */
  predicate Compatible(p: Piece, q: Piece) {
    forall i | p.at <= i < p.at + |p.bytes| && Writes(q, i) :: ByteAt(p, i) == ByteAt(q, i)
  }

  predicate Holds(b: seq<byte>, p: Piece) {
    p.at + |p.bytes| <= |b| && b[p.at..p.at + |p.bytes|] == p.bytes
  }

  lemma PatchKeeps(b: seq<byte>, p: Piece, q: Piece)
    requires Holds(b, p) && Compatible(p, q) && q.at + |q.bytes| <= |b|
    ensures Holds(Patch(b, q), p)
  {
    var r := Patch(b, q);
    forall i: nat | Writes(p, i)
      ensures r[i] == ByteAt(p, i)
    {
      HeldByte(b, p, i);
      assert Writes(q, i) ==> r[i] == ByteAt(q, i);
    }
    assert r[p.at..p.at + |p.bytes|] == p.bytes by {
      assert forall k {:trigger p.bytes[k]} :: 0 <= k < |p.bytes| ==> r[p.at + k] == ByteAt(p, p.at + k);
    }
  }

  lemma HeldByte(b: seq<byte>, p: Piece, i: nat)
    requires Holds(b, p) && Writes(p, i)
    ensures b[i] == ByteAt(p, i)
  {
    assert b[p.at..p.at + |p.bytes|][i - p.at] == b[i];
  }

  /** Two pieces that are both there say the same where both are. */
  lemma HeldTogether(b: seq<byte>, p: Piece, q: Piece)
    requires Holds(b, p) && Holds(b, q)
    ensures Compatible(p, q)
  {
    forall i: nat | Writes(p, i) && Writes(q, i)
      ensures ByteAt(p, i) == ByteAt(q, i)
    {
      HeldByte(b, p, i);
      HeldByte(b, q, i);
    }
  }

  lemma {:induction false} StillHolds(b: seq<byte>, ps: seq<Piece>, p: Piece)
    requires Fits(ps, |b|) && Holds(b, p) && forall k {:trigger ps[k]} :: 0 <= k < |ps| ==> Compatible(p, ps[k])
    ensures Holds(PatchAll(b, ps), p)
    decreases |ps|
  {
    if ps != [] {
      PatchKeeps(b, p, ps[0]);
      StillHolds(Patch(b, ps[0]), ps[1..], p);
    }
  }

  /** A piece that no later piece disturbs is there in the end. */
  lemma {:induction false} PieceHolds(b: seq<byte>, ps: seq<Piece>, k: nat)
    requires Fits(ps, |b|) && k < |ps|
    requires forall j {:trigger ps[j]} :: k < j < |ps| ==> Compatible(ps[k], ps[j])
    ensures Holds(PatchAll(b, ps), ps[k])
    decreases |ps|
  {
    if k == 0 {
      assert Holds(Patch(b, ps[0]), ps[0]);
      StillHolds(Patch(b, ps[0]), ps[1..], ps[0]);
    } else {
      PieceHolds(Patch(b, ps[0]), ps[1..], k - 1);
    }
  }

  lemma {:induction false} PatchAppend(b: seq<byte>, ps: seq<Piece>, qs: seq<Piece>)
    requires Fits(ps, |b|) && Fits(qs, |b|)
    ensures Fits(ps + qs, |b|) && PatchAll(b, ps + qs) == PatchAll(PatchAll(b, ps), qs)
    decreases |ps|
  {
    if ps == [] {
      assert ps + qs == qs;
    } else {
      assert (ps + qs)[1..] == ps[1..] + qs;
      PatchAppend(Patch(b, ps[0]), ps[1..], qs);
    }
  }

  lemma PatchLast(b: seq<byte>, ps: seq<Piece>, p: Piece)
    requires Fits(ps, |b|) && p.at + |p.bytes| <= |b|
    ensures Fits(ps + [p], |b|) && PatchAll(b, ps + [p]) == Patch(PatchAll(b, ps), p)
  {
    PatchAppend(b, ps, [p]);
    assert PatchAll(PatchAll(b, ps), [p]) == PatchAll(Patch(PatchAll(b, ps), p), []);
  }

  function Shifted(ps: seq<Piece>, base: nat): (r: seq<Piece>)
    ensures |r| == |ps|
  {
    seq(|ps|, k requires 0 <= k < |ps| => Piece(base + ps[k].at, ps[k].bytes))
  }

  lemma PatchShifted(b: seq<byte>, p: Piece, lo: nat, hi: nat)
    requires lo <= hi <= |b| && p.at + |p.bytes| <= hi - lo
    ensures Patch(b, Piece(lo + p.at, p.bytes))[lo..hi] == Patch(b[lo..hi], p)
  {
    var whole, part := Patch(b, Piece(lo + p.at, p.bytes)), Patch(b[lo..hi], p);
    forall i | 0 <= i < hi - lo
      ensures whole[lo..hi][i] == part[i]
    {
      var k := lo + i;
      assert whole[lo..hi][i] == whole[k] && b[lo..hi][i] == b[k];
      assert whole[k] == if p.at <= i < p.at + |p.bytes| then p.bytes[i - p.at] else b[k];
      assert part[i] == if p.at <= i < p.at + |p.bytes| then p.bytes[i - p.at] else b[lo..hi][i];
    }
  }

  /** Patches of a region are the shifted patches of the whole. */
  lemma {:induction false} AllShifted(b: seq<byte>, ps: seq<Piece>, lo: nat, hi: nat)
    requires lo <= hi <= |b| && Fits(ps, hi - lo)
    ensures Fits(Shifted(ps, lo), |b|) && PatchAll(b, Shifted(ps, lo))[lo..hi] == PatchAll(b[lo..hi], ps)
    decreases |ps|
  {
    if ps != [] {
      var p := Piece(lo + ps[0].at, ps[0].bytes);
      PatchShifted(b, ps[0], lo, hi);
      AllShifted(Patch(b, p), ps[1..], lo, hi);
      assert Shifted(ps, lo) == [p] + Shifted(ps[1..], lo);
    }
  }

  method Put(a: array<byte>, at: nat, b: seq<byte>)
    requires at + |b| <= a.Length
    modifies a
    ensures a[..] == Patch(old(a[..]), Piece(at, b))
  {
    var i := 0;
    while i < |b|
      invariant 0 <= i <= |b|
      invariant forall k :: 0 <= k < i ==> a[at + k] == b[k]
      invariant forall k :: 0 <= k < a.Length && (k < at || at + i <= k) ==> a[k] == old(a[k])
    {
      a[at + i] := b[i];
      i := i + 1;
    }
  }
}
