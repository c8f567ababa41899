/**
 Arrays of structures translated where they are: their fields may change size and byte order.
 */
module ElfArrays {
  import opened Basics
  import opened ElfCoding
  import opened ElfPatches
  import opened Arithmetic

  // ----- Fields one after the other -----

  /** Offsets of elements. */
  function Times(i: nat, size: nat): nat {
    if i == 0 then 0 else Times(i - 1, size) + size
  }

  /** The offset of field `u`. */
  function Off(ws: seq<nat>, u: nat): nat
    requires u <= |ws|
  {
    if u == 0 then 0 else Off(ws, u - 1) + ws[u - 1]
  }

  lemma {:induction false} OffGrows(ws: seq<nat>, u: nat, v: nat)
    requires u <= v <= |ws|
    ensures Off(ws, u) <= Off(ws, v)
    decreases v
  {
    if u < v {
      OffGrows(ws, u, v - 1);
    }
  }

  /** Every field of the first kind is at most as wide as the one of the second. */
  predicate AtMost(ws: seq<nat>, more: seq<nat>) {
    |ws| == |more| && forall u {:trigger ws[u]} {:trigger more[u]} :: 0 <= u < |ws| ==> ws[u] <= more[u]
  }

  lemma {:induction false} OffLess(ws: seq<nat>, more: seq<nat>, u: nat)
    requires AtMost(ws, more) && u <= |ws|
    ensures Off(ws, u) <= Off(more, u)
  {
    if u > 0 {
      OffLess(ws, more, u - 1);
    }
  }

  /** The fields of `n` structures. */
  function Flat(ws: seq<nat>, n: nat): seq<nat> {
    if n == 0 then [] else Flat(ws, n - 1) + ws
  }

  lemma {:induction false} FlatAt(ws: seq<nat>, n: nat, i: nat, k: nat, u: nat)
    requires i < n && k < |ws| && u == Times(i, |ws|) + k
    ensures |Flat(ws, n)| == Times(n, |ws|) && u < |Flat(ws, n)| && Flat(ws, n)[u] == ws[k]
    decreases n
  {
    FlatLength(ws, n - 1);
    if i < n - 1 {
      FlatAt(ws, n - 1, i, k, u);
    }
  }

  lemma {:induction false} FlatLength(ws: seq<nat>, n: nat)
    ensures |Flat(ws, n)| == Times(n, |ws|)
  {
    if n > 0 {
      FlatLength(ws, n - 1);
    }
  }

  lemma {:induction false} FlatAtMost(ws: seq<nat>, more: seq<nat>, n: nat)
    requires AtMost(ws, more)
    ensures AtMost(Flat(ws, n), Flat(more, n))
  {
    if n > 0 {
      FlatAtMost(ws, more, n - 1);
    }
  }

  lemma {:induction false} OffOfSum(a: seq<nat>, b: seq<nat>, k: nat)
    requires k <= |b|
    ensures Off(a + b, |a| + k) == Off(a, |a|) + Off(b, k)
  {
    if k > 0 {
      OffOfSum(a, b, k - 1);
    } else {
      OffOfFirst(a, b, |a|);
    }
  }

  lemma {:induction false} OffOfFirst(a: seq<nat>, b: seq<nat>, u: nat)
    requires u <= |a|
    ensures Off(a + b, u) == Off(a, u)
  {
    if u > 0 {
      OffOfFirst(a, b, u - 1);
    }
  }

  lemma {:induction false} OffIsSize(ws: seq<nat>, u: nat)
    requires u <= |ws|
    ensures Off(ws, u) == Size(ws[..u])
  {
    if u > 0 {
      OffIsSize(ws, u - 1);
      assert ws[..u] == ws[..u - 1] + [ws[u - 1]];
      SizeOfSum(ws[..u - 1], [ws[u - 1]]);
    }
  }

  lemma WholeOff(ws: seq<nat>)
    ensures Off(ws, |ws|) == Size(ws)
  {
    OffIsSize(ws, |ws|);
    assert ws[..|ws|] == ws;
  }

  /** Field `k` of structure `i` among those of `n` structures. */
  lemma {:induction false} FlatOff(ws: seq<nat>, n: nat, i: nat, k: nat, u: nat)
    requires u == Times(i, |ws|) + k && k <= |ws| && (i < n || (i == n && k == 0))
    ensures |Flat(ws, n)| == Times(n, |ws|) && u <= |Flat(ws, n)|
            && Off(Flat(ws, n), u) == Times(i, Size(ws)) + Off(ws, k)
    decreases n
  {
    FlatLength(ws, n);
    if n > 0 {
      var before := Flat(ws, n - 1);
      FlatLength(ws, n - 1);
      WholeOff(ws);
      if i >= n - 1 {
        FlatOff(ws, n - 1, n - 1, 0, |before|);
        OffOfSum(before, ws, u - |before|);
      } else {
        FlatOff(ws, n - 1, i, k, u);
        OffOfFirst(before, ws, u);
      }
    }
  }

  // ----- One field -----

  /** One number in another byte order and size. */
  function Translate(b: seq<byte>, from: nat, tsize: nat, to: nat): (r: seq<byte>)
    ensures |r| == tsize
  {
    Store(Load(b, from), tsize, to)
  }

  function Field(s: seq<byte>, ws: seq<nat>, u: nat): (b: seq<byte>)
    requires u < |ws| && Off(ws, u + 1) <= |s|
    ensures |b| == ws[u]
  {
    s[Off(ws, u)..Off(ws, u + 1)]
  }

  /** The fields of the source and of the destination, and their byte orders. */
  datatype Fields = Fields(fs: seq<nat>, from: nat, ts: seq<nat>, to: nat)

  /** Field `u` of `now` is the translation of field `u` of `was`. */
  predicate Done(now: seq<byte>, was: seq<byte>, u: nat, x: Fields) {
    && u < |x.fs| == |x.ts| && Off(x.fs, u + 1) <= |was| && Off(x.ts, u + 1) <= |now|
    && Field(now, x.ts, u) == Translate(Field(was, x.fs, u), x.from, x.ts[u], x.to)
  }

  predicate Kept(now: seq<byte>, was: seq<byte>, lo: nat, hi: nat) {
    lo <= hi <= |now| == |was| && now[lo..hi] == was[lo..hi]
  }

  /** Nothing but the bytes from `lo` to `hi` has changed. */
  predicate OnlyWithin(before: seq<byte>, now: seq<byte>, lo: nat, hi: nat) {
    |now| == |before| && forall k {:trigger now[k]} :: 0 <= k < |now| && (k < lo || hi <= k) ==> now[k] == before[k]
  }

  lemma SliceUnchanged(before: seq<byte>, now: seq<byte>, lo: nat, hi: nat, from: nat, to: nat)
    requires OnlyWithin(before, now, lo, hi) && from <= to <= |now| && (to <= lo || hi <= from)
    ensures now[from..to] == before[from..to]
  {
  }

  lemma PatchWithin(before: seq<byte>, at: nat, b: seq<byte>, end: nat)
    requires end == at + |b| <= |before|
    ensures var now := Patch(before, Piece(at, b)); now[at..end] == b && OnlyWithin(before, now, at, end)
  {
  }

  lemma SubSlice(s: seq<byte>, t: seq<byte>, lo: nat, hi: nat, from: nat, to: nat)
    requires Kept(s, t, lo, hi) && lo <= from <= to <= hi
    ensures Kept(s, t, from, to)
  {
    SliceOfSlice(s, lo, hi, from - lo, to - lo);
    SliceOfSlice(t, lo, hi, from - lo, to - lo);
    assert lo + (from - lo) == from && lo + (to - lo) == to;
  }

  lemma DoneStays(before: seq<byte>, now: seq<byte>, was: seq<byte>, u: nat, v: nat, x: Fields)
    requires u < |x.ts| && OnlyWithin(before, now, Off(x.ts, u), Off(x.ts, u + 1)) && v != u && Done(before, was, v, x)
    ensures Done(now, was, v, x)
  {
    if v < u {
      OffGrows(x.ts, v + 1, u);
    } else {
      OffGrows(x.ts, u + 1, v);
    }
    SliceUnchanged(before, now, Off(x.ts, u), Off(x.ts, u + 1), Off(x.ts, v), Off(x.ts, v + 1));
  }

  lemma KeptStays(before: seq<byte>, now: seq<byte>, was: seq<byte>, dst: nat, end: nat, lo: nat, hi: nat)
    requires OnlyWithin(before, now, dst, end) && Kept(before, was, lo, hi) && (hi <= dst || end <= lo)
    ensures Kept(now, was, lo, hi)
  {
    SliceUnchanged(before, now, dst, end, lo, hi);
  }

  /** Field `u` is translated; nothing else changes. */
  method TranslateField(a: array<byte>, ghost was: seq<byte>, ghost u: nat, ghost x: Fields,
                        fsize: nat, from: nat, tsize: nat, to: nat, src: nat, dst: nat)
    requires u < |x.fs| == |x.ts| && x.from == from && x.to == to && x.fs[u] == fsize && x.ts[u] == tsize
    requires src == Off(x.fs, u) && dst == Off(x.ts, u) && src + fsize <= |was| == a.Length && dst + tsize <= a.Length
    requires Kept(a[..], was, src, src + fsize)
    modifies a
    ensures Done(a[..], was, u, x) && OnlyWithin(old(a[..]), a[..], Off(x.ts, u), Off(x.ts, u + 1))
  {
    assert a[src..src + fsize] == a[..][src..src + fsize];
    var b := Translate(a[src..src + fsize], from, tsize, to);
    PatchWithin(a[..], dst, b, dst + tsize);
    Put(a, dst, b);
  }

  /** The fields from `lo` to `hi` are translated. */
  predicate AllDone(now: seq<byte>, was: seq<byte>, lo: nat, hi: nat, x: Fields) {
    forall u {:trigger Done(now, was, u, x)} :: lo <= u < hi ==> Done(now, was, u, x)
  }

  lemma OneMoreDone(before: seq<byte>, now: seq<byte>, was: seq<byte>, u: nat, lo: nat, hi: nat, lo': nat, hi': nat,
                    x: Fields)
    requires u < |x.ts| && OnlyWithin(before, now, Off(x.ts, u), Off(x.ts, u + 1)) && Done(now, was, u, x)
    requires AllDone(before, was, lo, hi, x)
    requires (lo' == lo && hi == u && hi' == u + 1) || (lo' == u && lo == u + 1 && hi' == hi)
    ensures AllDone(now, was, lo', hi', x)
  {
    forall v {:trigger Done(now, was, v, x)} | lo' <= v < hi'
      ensures Done(now, was, v, x)
    {
      if v != u {
        DoneStays(before, now, was, u, v, x);
      }
    }
  }

  // ----- The loops -----

  /** One field further, from the last to the first. */
  method BackwardField(a: array<byte>, ghost was: seq<byte>, ghost u: nat, ghost u': nat, ghost x: Fields,
                       fsize: nat, from: nat, tsize: nat, to: nat, src: nat, dst: nat)
    returns (src': nat, dst': nat)
    requires AtMost(x.fs, x.ts) && u < |x.fs| && u' == u + 1 && x.from == from && x.to == to && x.fs[u] == fsize
             && x.ts[u] == tsize
    requires src == Off(x.fs, u') && dst == Off(x.ts, u') && src <= dst <= a.Length
    requires Kept(a[..], was, 0, src) && AllDone(a[..], was, u', |x.fs|, x)
    modifies a
    ensures src' == Off(x.fs, u) && dst' == Off(x.ts, u) && src' <= dst'
    ensures Kept(a[..], was, 0, src') && AllDone(a[..], was, u, |x.fs|, x)
  {
    ghost var before := a[..];
    src', dst' := src - fsize, dst - tsize;
    OffLess(x.fs, x.ts, u);
    SubSlice(before, was, 0, src, src', src);
    SubSlice(before, was, 0, src, 0, src');
    TranslateField(a, was, u, x, fsize, from, tsize, to, src', dst');
    KeptStays(before, a[..], was, Off(x.ts, u), Off(x.ts, u'), 0, src');
    OneMoreDone(before, a[..], was, u, u', |x.fs|, u, |x.fs|, x);
  }

  /** Growing structures are translated from the last to the first, and their fields likewise. */
  method Backward(a: array<byte>, n: nat, fw: seq<nat>, from: nat, tw: seq<nat>, to: nat, ghost x: Fields)
    requires x == Fields(Flat(fw, n), from, Flat(tw, n), to) && AtMost(fw, tw) && Off(x.ts, |x.ts|) <= a.Length
    modifies a
    ensures AllDone(a[..], old(a[..]), 0, |x.fs|, x)
  {
    ghost var was, m := a[..], |fw|;
    FlatAtMost(fw, tw, n);
    FlatLength(fw, n);
    OffLess(x.fs, x.ts, |x.fs|);
    FlatOff(fw, n, n, 0, Times(n, m));
    FlatOff(tw, n, n, 0, Times(n, m));
    var i, src, dst := n, Times(n, Size(fw)), Times(n, Size(tw));
    ghost var u := Times(n, m);
    while i > 0
      invariant 0 <= i <= n && u == Times(i, m) <= |x.fs| && src == Off(x.fs, u) && dst == Off(x.ts, u)
                && src <= dst <= a.Length
      invariant Kept(a[..], was, 0, src) && AllDone(a[..], was, u, |x.fs|, x)
    {
      i := i - 1;
      var k := |fw|;
      while k > 0
        invariant 0 <= k <= m && u == Times(i, m) + k <= |x.fs| && src == Off(x.fs, u) && dst == Off(x.ts, u)
                  && src <= dst <= a.Length
        invariant Kept(a[..], was, 0, src) && AllDone(a[..], was, u, |x.fs|, x)
      {
        k := k - 1;
        ghost var v := u - 1;
        FlatAt(fw, n, i, k, v);
        FlatAt(tw, n, i, k, v);
        src, dst := BackwardField(a, was, v, u, x, fw[k], from, tw[k], to, src, dst);
        u := v;
      }
    }
  }

  /** One field further, from the first to the last. */
  method ForwardField(a: array<byte>, ghost was: seq<byte>, ghost u: nat, ghost u': nat, ghost x: Fields,
                      fsize: nat, from: nat, tsize: nat, to: nat, src: nat, dst: nat, ghost end: nat)
    returns (src': nat, dst': nat)
    requires AtMost(x.ts, x.fs) && u < |x.fs| && u' == u + 1 && x.from == from && x.to == to && x.fs[u] == fsize
             && x.ts[u] == tsize
    requires src == Off(x.fs, u) && dst == Off(x.ts, u) && dst <= src && end == Off(x.fs, |x.fs|) <= a.Length
    requires Kept(a[..], was, src, end) && AllDone(a[..], was, 0, u, x)
    modifies a
    ensures src' == Off(x.fs, u') && dst' == Off(x.ts, u') && dst' <= src'
    ensures Kept(a[..], was, src', end) && AllDone(a[..], was, 0, u', x)
  {
    ghost var before := a[..];
    src', dst' := src + fsize, dst + tsize;
    OffGrows(x.fs, u', |x.fs|);
    SubSlice(before, was, src, end, src, src');
    SubSlice(before, was, src, end, src', end);
    TranslateField(a, was, u, x, fsize, from, tsize, to, src, dst);
    KeptStays(before, a[..], was, Off(x.ts, u), Off(x.ts, u'), src', end);
    OneMoreDone(before, a[..], was, u, 0, u, 0, u', x);
  }

  /** Structures that do not grow are translated from the first to the last, and their fields likewise. */
  method Forward(a: array<byte>, n: nat, fw: seq<nat>, from: nat, tw: seq<nat>, to: nat, ghost x: Fields)
    requires x == Fields(Flat(fw, n), from, Flat(tw, n), to) && AtMost(tw, fw) && Off(x.fs, |x.fs|) <= a.Length
    modifies a
    ensures AllDone(a[..], old(a[..]), 0, |x.fs|, x)
  {
    ghost var was, m, end := a[..], |fw|, Off(x.fs, |x.fs|);
    FlatAtMost(tw, fw, n);
    FlatLength(fw, n);
    var i, src, dst := 0, 0, 0;
    ghost var u := 0;
    while i < n
      invariant i <= n && u == Times(i, m) <= |x.fs| && src == Off(x.fs, u) && dst == Off(x.ts, u) && dst <= src
      invariant Kept(a[..], was, src, end) && AllDone(a[..], was, 0, u, x)
    {
      var k := 0;
      while k < |fw|
        invariant k <= m && u == Times(i, m) + k <= |x.fs| && src == Off(x.fs, u) && dst == Off(x.ts, u) && dst <= src
        invariant Kept(a[..], was, src, end) && AllDone(a[..], was, 0, u, x)
      {
        ghost var v := u + 1;
        FlatAt(fw, n, i, k, u);
        FlatAt(tw, n, i, k, u);
        src, dst := ForwardField(a, was, u, v, x, fw[k], from, tw[k], to, src, dst, end);
        k, u := k + 1, v;
      }
      i := i + 1;
    }
  }

  // ----- Structures -----

  function Element(s: seq<byte>, i: nat, size: nat): (b: seq<byte>)
    requires Times(i + 1, size) <= |s|
    ensures |b| == size
  {
    s[Times(i, size)..Times(i + 1, size)]
  }

  /** A structure in another byte order, with fields of other sizes. */
  function Restructure(b: seq<byte>, fw: seq<nat>, from: nat, tw: seq<nat>, to: nat): (r: seq<byte>)
    requires |b| == Size(fw) && |fw| == |tw|
    ensures |r| == Size(tw)
  {
    StoreAll(LoadAll(b, fw, from), tw, to)
  }

  lemma {:induction false} OffTail(ws: seq<nat>, k: nat)
    requires k < |ws|
    ensures Off(ws, k + 1) == ws[0] + Off(ws[1..], k)
  {
    if k > 0 {
      OffTail(ws, k - 1);
    }
  }

  lemma FieldTail(s: seq<byte>, ws: seq<nat>, k: nat)
    requires k + 1 < |ws| && Size(ws) == |s|
    ensures Off(ws, k + 2) <= |s| && Size(ws[1..]) == |s| - ws[0] && Off(ws[1..], k + 1) <= |s| - ws[0]
    ensures Field(s, ws, k + 1) == Field(s[ws[0]..], ws[1..], k)
  {
    WholeOff(ws);
    OffGrows(ws, k + 2, |ws|);
    OffTail(ws, k);
    OffTail(ws, k + 1);
    SliceTail(s, ws[0], Off(ws[1..], k), Off(ws[1..], k + 1), Off(ws, k + 1), Off(ws, k + 2));
  }

  lemma SliceTail(s: seq<byte>, n: nat, lo: nat, hi: nat, from: nat, to: nat)
    requires lo <= hi && from == n + lo && to == n + hi && to <= |s|
    ensures s[n..][lo..hi] == s[from..to]
  {
  }

  lemma {:induction false} LoadedField(b: seq<byte>, ws: seq<nat>, encoding: nat, k: nat)
    requires |b| == Size(ws) && k < |ws|
    ensures Off(ws, k + 1) <= |b| && LoadAll(b, ws, encoding)[k] == Load(Field(b, ws, k), encoding)
  {
    WholeOff(ws);
    OffGrows(ws, k + 1, |ws|);
    if k == 0 {
      assert Off(ws, 1) == ws[0] && Field(b, ws, 0) == b[..ws[0]];
    } else {
      FieldTail(b, ws, k - 1);
      LoadedField(b[ws[0]..], ws[1..], encoding, k - 1);
    }
  }

  predicate StoredField(r: seq<byte>, vs: seq<nat>, k: nat, ws: seq<nat>, encoding: nat) {
    k < |ws| == |vs| && Off(ws, k + 1) <= |r| && Field(r, ws, k) == Store(vs[k], ws[k], encoding)
  }

  lemma StoredTail(r: seq<byte>, vs: seq<nat>, k: nat, ws: seq<nat>, encoding: nat)
    requires |r| == Size(ws) && k + 1 < |ws| && StoredField(r, vs, k + 1, ws, encoding)
    ensures ws[0] <= |r| && StoredField(r[ws[0]..], vs[1..], k, ws[1..], encoding)
  {
    FieldTail(r, ws, k);
  }

  lemma {:induction false} StoredFields(r: seq<byte>, vs: seq<nat>, ws: seq<nat>, encoding: nat)
    requires |r| == Size(ws) && |vs| == |ws| && forall k :: 0 <= k < |ws| ==> StoredField(r, vs, k, ws, encoding)
    ensures r == StoreAll(vs, ws, encoding)
  {
    if ws != [] {
      assert StoredField(r, vs, 0, ws, encoding) && Off(ws, 1) == ws[0] && Field(r, ws, 0) == r[..ws[0]];
      var rest := r[ws[0]..];
      forall k | 0 <= k < |ws| - 1
        ensures StoredField(rest, vs[1..], k, ws[1..], encoding)
      {
        StoredTail(r, vs, k, ws, encoding);
      }
      StoredFields(rest, vs[1..], ws[1..], encoding);
      assert r == r[..ws[0]] + rest && r[..ws[0]] == Store(vs[0], ws[0], encoding);
    }
  }

  lemma {:induction false} TimesGrows(i: nat, j: nat, size: nat)
    requires i <= j
    ensures Times(i, size) <= Times(j, size)
    decreases j
  {
    if i < j {
      TimesGrows(i, j - 1, size);
    }
  }

  lemma FieldOfElement(s: seq<byte>, ws: seq<nat>, n: nat, i: nat, k: nat, u: nat, e: seq<byte>)
    requires i < n && k < |ws| && u == Times(i, |ws|) + k && Times(i + 1, Size(ws)) <= |s|
             && e == Element(s, i, Size(ws))
    ensures u < |Flat(ws, n)| && Off(ws, k + 1) <= |e|
    ensures Off(Flat(ws, n), u + 1) <= |s| && Field(s, Flat(ws, n), u) == Field(e, ws, k)
  {
    var at := Times(i, Size(ws));
    FlatAt(ws, n, i, k, u);
    FlatOff(ws, n, i, k, u);
    FlatOff(ws, n, i, k + 1, u + 1);
    WholeOff(ws);
    OffGrows(ws, k + 1, |ws|);
    SliceOfSlice(s, at, at + Size(ws), Off(ws, k), Off(ws, k + 1));
  }

  lemma ElementDone(now: seq<byte>, was: seq<byte>, n: nat, i: nat, fw: seq<nat>, from: nat, tw: seq<nat>, to: nat,
                    x: Fields)
    requires x == Fields(Flat(fw, n), from, Flat(tw, n), to) && AllDone(now, was, 0, |x.fs|, x) && |fw| == |tw| && i < n
    requires Times(i + 1, Size(fw)) <= |was| && Times(i + 1, Size(tw)) <= |now|
    ensures Element(now, i, Size(tw)) == Restructure(Element(was, i, Size(fw)), fw, from, tw, to)
  {
    var r, b := Element(now, i, Size(tw)), Element(was, i, Size(fw));
    var vs := LoadAll(b, fw, from);
    forall k | 0 <= k < |fw|
      ensures StoredField(r, vs, k, tw, to)
    {
      var u := Times(i, |fw|) + k;
      FlatAt(tw, n, i, k, u);
      FieldOfElement(now, tw, n, i, k, u, r);
      FieldOfElement(was, fw, n, i, k, u, b);
      LoadedField(b, fw, from, k);
      assert Done(now, was, u, x);
    }
    StoredFields(r, vs, tw, to);
  }

  /** Every structure of `now` is the translation of what that structure was. */
  predicate AllTranslated(now: seq<byte>, was: seq<byte>, n: nat, fw: seq<nat>, from: nat, tw: seq<nat>, to: nat)
    requires |fw| == |tw|
  {
    forall i :: 0 <= i < n ==> StructureDone(now, was, i, fw, from, tw, to)
  }

  predicate StructureDone(now: seq<byte>, was: seq<byte>, i: nat, fw: seq<nat>, from: nat, tw: seq<nat>, to: nat)
    requires |fw| == |tw|
  {
    && Times(i + 1, Size(fw)) <= |was| && Times(i + 1, Size(tw)) <= |now|
    && Element(now, i, Size(tw)) == Restructure(Element(was, i, Size(fw)), fw, from, tw, to)
  }

  lemma ElementsDone(now: seq<byte>, was: seq<byte>, n: nat, fw: seq<nat>, from: nat, tw: seq<nat>, to: nat, x: Fields)
    requires x == Fields(Flat(fw, n), from, Flat(tw, n), to) && AllDone(now, was, 0, |x.fs|, x) && |fw| == |tw|
    requires Times(n, Size(fw)) <= |was| && Times(n, Size(tw)) <= |now|
    ensures AllTranslated(now, was, n, fw, from, tw, to)
  {
    forall i | 0 <= i < n
      ensures StructureDone(now, was, i, fw, from, tw, to)
    {
      TimesGrows(i + 1, n, Size(fw));
      TimesGrows(i + 1, n, Size(tw));
      ElementDone(now, was, n, i, fw, from, tw, to, x);
    }
  }

  /** Translates the structures in the first `bytes` bytes where they are: every structure becomes the translation of
      what it was at the start, whether structures grow, shrink or keep their size, as long as no field goes the
      other way. */
  method TranslateInPlace(a: array<byte>, bytes: nat, fw: seq<nat>, from: nat, tw: seq<nat>, to: nat) returns (n: nat)
    requires Size(fw) > 0 && bytes <= a.Length && Times(bytes / Size(fw), Size(tw)) <= a.Length
    requires if Size(fw) < Size(tw) then AtMost(fw, tw) else AtMost(tw, fw)
    modifies a
    ensures n == bytes / Size(fw) && AllTranslated(a[..], old(a[..]), n, fw, from, tw, to)
  {
    n := bytes / Size(fw);
    WholeElements(bytes, Size(fw));
    ghost var was, m, x := a[..], |fw|, Fields(Flat(fw, n), from, Flat(tw, n), to);
    FlatOff(fw, n, n, 0, Times(n, m));
    FlatOff(tw, n, n, 0, Times(n, m));
    if Size(fw) < Size(tw) {
      Backward(a, n, fw, from, tw, to, x);
    } else {
      Forward(a, n, fw, from, tw, to, x);
    }
    ElementsDone(a[..], was, n, fw, from, tw, to, x);
  }

  lemma {:induction false} WholeElements(bytes: nat, size: nat)
    requires size > 0
    ensures Times(bytes / size, size) <= bytes
    decreases bytes
  {
    if bytes >= size {
      QuotientStep(bytes, size);
      WholeElements(bytes - size, size);
      assert bytes / size == (bytes - size) / size + 1;
    }
  }

  lemma JoinSlices(s: seq<byte>, lo: nat, mid: nat, hi: nat)
    requires lo <= mid <= hi <= |s|
    ensures s[lo..hi] == s[lo..mid] + s[mid..hi]
  {
  }

  lemma ArrayFirst(b: seq<byte>, e: seq<byte>, rest: seq<byte>, ws: seq<nat>, from: nat, to: nat)
    requires Size(ws) > 0 && |e| == Size(ws) && b == e + rest
    ensures RecodeArray(b, ws, from, to) == Recode(e, ws, from, to) + RecodeArray(rest, ws, from, to)
  {
    SplitSum(e, rest, |e|);
  }

  lemma {:induction false} SuffixIsArray(now: seq<byte>, was: seq<byte>, n: nat, i: nat, ws: seq<nat>, from: nat,
                                         to: nat, lo: nat, end: nat)
    requires AllTranslated(now, was, n, ws, from, ws, to) && Size(ws) > 0 && i <= n
    requires lo == Times(i, Size(ws)) && end == Times(n, Size(ws)) && lo <= end <= |was| && end <= |now|
    ensures now[lo..end] == RecodeArray(was[lo..end], ws, from, to)
    decreases n - i
  {
    if i < n {
      var next := Times(i + 1, Size(ws));
      TimesGrows(i + 1, n, Size(ws));
      SuffixIsArray(now, was, n, i + 1, ws, from, to, next, end);
      assert StructureDone(now, was, i, ws, from, ws, to);
      JoinSlices(was, lo, next, end);
      JoinSlices(now, lo, next, end);
      ArrayFirst(was[lo..end], was[lo..next], was[next..end], ws, from, to);
    }
  }

  /** Structures that keep their sizes are translated in place as arrays are translated into another buffer. */
  lemma InPlaceIsArray(now: seq<byte>, was: seq<byte>, n: nat, ws: seq<nat>, from: nat, to: nat, end: nat)
    requires AllTranslated(now, was, n, ws, from, ws, to) && Size(ws) > 0 && end == Times(n, Size(ws)) <= |was|
             && end <= |now|
    ensures now[..end] == RecodeArray(was[..end], ws, from, to)
  {
    SuffixIsArray(now, was, n, 0, ws, from, to, 0, end);
    assert now[0..end] == now[..end] && was[0..end] == was[..end];
  }
}
