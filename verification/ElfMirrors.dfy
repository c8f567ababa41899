/**
 Where the bytes of a structure go when its byte order changes, and what becomes of a structure that is stored over
 itself.
 */
module ElfMirrors {
  import opened Basics
  import opened ElfTypes
  import opened ElfCoding

  /** All encodings but one have the lowest byte first. */
  predicate SameOrder(from: nat, to: nat) {
    (from == ELFDATA2MSB) == (to == ELFDATA2MSB)
  }

  /** The place that byte `i` of a structure trades with when every field is turned around. */
  function Mirror(ws: seq<nat>, i: nat): (j: nat)
    requires i < Size(ws)
    ensures j < Size(ws)
  {
    if i < ws[0] then ws[0] - 1 - i else ws[0] + Mirror(ws[1..], i - ws[0])
  }

  lemma {:induction false} MirrorTwice(ws: seq<nat>, i: nat)
    requires i < Size(ws)
    ensures Mirror(ws, Mirror(ws, i)) == i
  {
    if i >= ws[0] {
      MirrorTwice(ws[1..], i - ws[0]);
    }
  }

  lemma FieldTurned(b: seq<byte>, from: nat, to: nat)
    ensures Store(Load(b, from), |b|, to) == if SameOrder(from, to) then b else Reverse(b)
  {
    Loaded(b, from);
    var little := if from == ELFDATA2MSB then Reverse(b) else b;
    LittleLoaded(little);
    ReverseTwice(b);
  }

  /** Byte `i` of a structure in another byte order. */
  function Turned(b: seq<byte>, ws: seq<nat>, from: nat, to: nat, i: nat): byte
    requires |b| == Size(ws) && i < |b|
  {
    if SameOrder(from, to) then b[i] else b[Mirror(ws, i)]
  }

  lemma TurnedRest(b: seq<byte>, ws: seq<nat>, from: nat, to: nat, i: nat, w: nat, k: nat)
    requires |b| == Size(ws) && w <= i < |b| && ws != [] && w == ws[0] && k == i - w
    ensures Turned(b, ws, from, to, i) == Turned(b[w..], ws[1..], from, to, k)
  {
    assert b[w..][k] == b[i];
  }

  lemma TurnedFirst(b: seq<byte>, ws: seq<nat>, from: nat, to: nat, i: nat, w: nat)
    requires |b| == Size(ws) && ws != [] && w == ws[0] && i < w
    ensures Turned(b, ws, from, to, i) == Store(Load(b[..w], from), w, to)[i]
  {
    FieldTurned(b[..w], from, to);
  }

  lemma InSum(a: seq<byte>, c: seq<byte>, i: nat, k: nat)
    requires i < |a + c|
    ensures i < |a| ==> (a + c)[i] == a[i]
    ensures i >= |a| && k == i - |a| ==> (a + c)[i] == c[k]
  {
  }

  lemma {:induction false} RecodedByte(b: seq<byte>, ws: seq<nat>, from: nat, to: nat, i: nat, r: seq<byte>)
    requires |b| == Size(ws) && i < |b| && r == Recode(b, ws, from, to)
    ensures r[i] == Turned(b, ws, from, to, i)
    decreases |ws|
  {
    var w := ws[0];
    var first, rest := Store(Load(b[..w], from), w, to), Recode(b[w..], ws[1..], from, to);
    RecodedFirst(b, ws, from, to);
    if i < w {
      InSum(first, rest, i, 0);
      TurnedFirst(b, ws, from, to, i, w);
    } else {
      var k := i - w;
      InSum(first, rest, i, k);
      RecodedByte(b[w..], ws[1..], from, to, k, rest);
      TurnedRest(b, ws, from, to, i, w, k);
    }
  }

  lemma RecodedFirst(b: seq<byte>, ws: seq<nat>, from: nat, to: nat)
    requires |b| == Size(ws) && ws != []
    ensures Recode(b, ws, from, to) == Store(Load(b[..ws[0]], from), ws[0], to) + Recode(b[ws[0]..], ws[1..], from, to)
  {
    var first, rest := Load(b[..ws[0]], from), LoadAll(b[ws[0]..], ws[1..], from);
    assert ([first] + rest)[1..] == rest;
  }

  // ----- Arrays of structures -----

  function ArrayMirror(ws: seq<nat>, i: nat): (j: nat)
    requires Size(ws) > 0
    decreases i
  {
    if i < Size(ws) then Mirror(ws, i) else Size(ws) + ArrayMirror(ws, i - Size(ws))
  }

  lemma ArrayStep(b: seq<byte>, ws: seq<nat>, from: nat, to: nat, n: nat, r: seq<byte>, rest: seq<byte>)
    requires n == Size(ws) && 0 < n <= |b| && r == RecodeArray(b, ws, from, to)
    requires rest == RecodeArray(b[n..], ws, from, to)
    ensures r == Recode(b[..n], ws, from, to) + rest
  {
  }

  lemma {:induction false} ArrayByte(b: seq<byte>, ws: seq<nat>, from: nat, to: nat, i: nat, r: seq<byte>)
    requires Size(ws) > 0 && r == RecodeArray(b, ws, from, to) && i < |r|
    ensures ArrayMirror(ws, i) < |b|
    ensures r[i] == if SameOrder(from, to) then b[i] else b[ArrayMirror(ws, i)]
    decreases |b|
  {
    var n := Size(ws);
    var first, rest := Recode(b[..n], ws, from, to), RecodeArray(b[n..], ws, from, to);
    ArrayStep(b, ws, from, to, n, r, rest);
    if i < n {
      InSum(first, rest, i, 0);
      RecodedByte(b[..n], ws, from, to, i, first);
    } else {
      var k := i - n;
      InSum(first, rest, i, k);
      ArrayByte(b[n..], ws, from, to, k, rest);
      LaterByte(b, ws, n, i, k);
    }
  }

  /** Byte `i` and the one that it trades with, counted from the second structure on. */
  lemma LaterByte(b: seq<byte>, ws: seq<nat>, n: nat, i: nat, k: nat)
    requires n == Size(ws) > 0 && i == n + k && n <= |b| && ArrayMirror(ws, k) < |b[n..]|
    ensures ArrayMirror(ws, i) < |b| && b[ArrayMirror(ws, i)] == b[n..][ArrayMirror(ws, k)]
    ensures k < |b[n..]| ==> b[i] == b[n..][k]
  {
  }

  // ----- Storing over the number that is stored -----

  /** Where the byte of significance `k` is in a number of `w` bytes. */
  function Place(encoding: nat, k: nat, w: nat): (p: nat)
    requires k < w
    ensures p < w
  {
    if encoding == ELFDATA2MSB then w - 1 - k else k
  }

  /** Storing the `k` lowest bytes of a number, the highest first, where the number is read again for every byte and
      is in the place that is written. */
  function StoredOver(b: seq<byte>, host: nat, to: nat, k: nat): (r: seq<byte>)
    requires k <= |b|
    ensures |r| == |b|
    decreases k
  {
    if k == 0 then b
    else
      var w := |b|;
      StoredOver(b[Place(to, k - 1, w) := b[Place(host, k - 1, w)]], host, to, k - 1)
  }

  lemma {:induction false} SameOrderStays(b: seq<byte>, host: nat, to: nat, k: nat)
    requires k <= |b| && SameOrder(host, to)
    ensures StoredOver(b, host, to, k) == b
    decreases k
  {
    if k > 0 {
      var p := Place(to, k - 1, |b|);
      assert b[p := b[p]] == b;
      SameOrderStays(b, host, to, k - 1);
    }
  }

  /** The half of a number that is written first. */
  predicate InFirstHalf(to: nat, p: nat, w: nat) {
    if to == ELFDATA2MSB then p < w - 1 - p else w - 1 - p < p
  }

  /** A number of which the `k` lowest bytes are still to be stored in the opposite order: what was written first is
      turned around, and the rest is as it was, or was written with the same bytes again. */
  predicate HalfTurned(r: seq<byte>, b: seq<byte>, to: nat, k: nat) {
    |r| == |b| && forall p {:trigger r[p]} :: 0 <= p < |b| ==>
      r[p] == if InFirstHalf(to, p, |b|) && k <= Place(to, p, |b|) then b[|b| - 1 - p] else b[p]
  }

  lemma {:induction false} OtherOrderHalf(b: seq<byte>, r: seq<byte>, host: nat, to: nat, k: nat)
    requires k <= |b| && !SameOrder(host, to) && HalfTurned(r, b, to, k)
    ensures HalfTurned(StoredOver(r, host, to, k), b, to, 0)
    decreases k
  {
    if k > 0 {
      var w := |b|;
      var p := Place(to, k - 1, w);
      assert Place(host, k - 1, w) == w - 1 - p && Place(to, p, w) == k - 1;
      var r' := r[p := r[w - 1 - p]];
      OneMoreStored(b, r, r', to, k, p);
      OtherOrderHalf(b, r', host, to, k - 1);
    }
  }

  lemma OneMoreStored(b: seq<byte>, r: seq<byte>, r': seq<byte>, to: nat, k: nat, p: nat)
    requires 0 < k <= |b| && HalfTurned(r, b, to, k) && p == Place(to, k - 1, |b|) && r' == r[p := r[|b| - 1 - p]]
    ensures HalfTurned(r', b, to, k - 1)
  {
  }

  /** A number stored over itself is right if and only if its byte order stays or it reads the same both ways. */
  lemma StoredOverReverses(b: seq<byte>, host: nat, to: nat)
    ensures StoredOver(b, host, to, |b|) == Store(Load(b, host), |b|, to) <==> SameOrder(host, to) || b == Reverse(b)
  {
    var r := StoredOver(b, host, to, |b|);
    FieldTurned(b, host, to);
    if SameOrder(host, to) {
      SameOrderStays(b, host, to, |b|);
    } else {
      OtherOrderHalf(b, b, host, to, |b|);
      HalfIsWhole(b, r, to);
    }
  }

  lemma HalfIsWhole(b: seq<byte>, r: seq<byte>, to: nat)
    requires HalfTurned(r, b, to, 0)
    ensures r == Reverse(b) <==> b == Reverse(b)
  {
    var w := |b|;
    if r == Reverse(b) {
      forall p | 0 <= p < w
        ensures b[p] == b[w - 1 - p]
      {
        var q := w - 1 - p;
        assert r[p] == b[q] && r[q] == b[p];
        assert InFirstHalf(to, p, w) || InFirstHalf(to, q, w) || p == q;
      }
    }
  }

  /** A structure whose fields are stored over themselves one after the other. */
  function AllStoredOver(b: seq<byte>, ws: seq<nat>, host: nat, to: nat): (r: seq<byte>)
    requires |b| == Size(ws)
    ensures |r| == |b|
  {
    if ws == [] then []
    else StoredOver(b[..ws[0]], host, to, ws[0]) + AllStoredOver(b[ws[0]..], ws[1..], host, to)
  }

  lemma MirrorRest(ws: seq<nat>, w: nat, i: nat, k: nat)
    requires ws != [] && w == ws[0] && i == w + k && i < Size(ws)
    ensures Mirror(ws, i) == w + Mirror(ws[1..], k)
  {
  }

  /** Byte `i` is the same as the one it trades with. */
  predicate Mirrored(b: seq<byte>, ws: seq<nat>, i: nat)
    requires |b| == Size(ws)
  {
    i < |b| ==> b[i] == b[Mirror(ws, i)]
  }

  /** Every field reads the same both ways. */
  predicate Palindromes(b: seq<byte>, ws: seq<nat>)
    requires |b| == Size(ws)
  {
    forall i: nat | i < |b| :: Mirrored(b, ws, i)
  }

  lemma MirroredFirst(b: seq<byte>, ws: seq<nat>, w: nat, i: nat)
    requires |b| == Size(ws) && ws != [] && w == ws[0] && i < w
    ensures Mirrored(b, ws, i) <==> b[..w][i] == Reverse(b[..w])[i]
  {
  }

  lemma MirroredRest(b: seq<byte>, ws: seq<nat>, w: nat, i: nat, k: nat)
    requires |b| == Size(ws) && ws != [] && w == ws[0] && i == w + k && i < |b|
    ensures Mirrored(b, ws, i) <==> Mirrored(b[w..], ws[1..], k)
  {
    MirrorRest(ws, w, i, k);
    var m := Mirror(ws[1..], k);
    assert b[w..][k] == b[i] && b[w..][m] == b[w + m];
  }

  lemma PalindromesParts(b: seq<byte>, ws: seq<nat>, w: nat)
    requires |b| == Size(ws) && ws != [] && w == ws[0] && Palindromes(b, ws)
    ensures b[..w] == Reverse(b[..w]) && Palindromes(b[w..], ws[1..])
  {
    forall i | 0 <= i < w
      ensures b[..w][i] == Reverse(b[..w])[i]
    {
      assert Mirrored(b, ws, i);
      MirroredFirst(b, ws, w, i);
    }
    forall k: nat | k < |b| - w
      ensures Mirrored(b[w..], ws[1..], k)
    {
      assert Mirrored(b, ws, w + k);
      MirroredRest(b, ws, w, w + k, k);
    }
  }

  lemma PalindromesJoin(b: seq<byte>, ws: seq<nat>, w: nat)
    requires |b| == Size(ws) && ws != [] && w == ws[0]
    requires b[..w] == Reverse(b[..w]) && Palindromes(b[w..], ws[1..])
    ensures Palindromes(b, ws)
  {
    forall i: nat | i < |b|
      ensures Mirrored(b, ws, i)
    {
      if i < w {
        MirroredFirst(b, ws, w, i);
      } else {
        var k := i - w;
        assert Mirrored(b[w..], ws[1..], k);
        MirroredRest(b, ws, w, i, k);
      }
    }
  }

  lemma PalindromesSplit(b: seq<byte>, ws: seq<nat>, w: nat)
    requires |b| == Size(ws) && ws != [] && w == ws[0]
    ensures Palindromes(b, ws) <==> b[..w] == Reverse(b[..w]) && Palindromes(b[w..], ws[1..])
  {
    if Palindromes(b, ws) {
      PalindromesParts(b, ws, w);
    }
    if b[..w] == Reverse(b[..w]) && Palindromes(b[w..], ws[1..]) {
      PalindromesJoin(b, ws, w);
    }
  }

  /** Translation of a structure to the file, in the place where it is, is right if and only if its byte order stays
      or every one of its fields reads the same both ways. */
  lemma {:induction false} StructureStoredOver(b: seq<byte>, ws: seq<nat>, host: nat, to: nat)
    requires |b| == Size(ws)
    ensures AllStoredOver(b, ws, host, to) == Recode(b, ws, host, to) <==> SameOrder(host, to) || Palindromes(b, ws)
  {
    if ws != [] {
      var w := ws[0];
      StoredOverReverses(b[..w], host, to);
      StructureStoredOver(b[w..], ws[1..], host, to);
      PalindromesSplit(b, ws, w);
      RecodedFirst(b, ws, host, to);
      SumsEqual(StoredOver(b[..w], host, to, w), AllStoredOver(b[w..], ws[1..], host, to),
                Store(Load(b[..w], host), w, to), Recode(b[w..], ws[1..], host, to));
    }
  }

  lemma SumsEqual(a: seq<byte>, b: seq<byte>, c: seq<byte>, d: seq<byte>)
    requires |a| == |c|
    ensures a + b == c + d <==> a == c && b == d
  {
    SplitSum(a, b, |a|);
    SplitSum(c, d, |c|);
  }

  /** The word 1 2 3 4, stored over itself with the highest byte first by a host that has it last. */
  lemma FourBytesSpoiled(b: seq<byte>)
    requires b == [1, 2, 3, 4]
    ensures StoredOver(b, ELFDATA2LSB, ELFDATA2MSB, 4) == [4, 3, 3, 4] && Reverse(b) == [4, 3, 2, 1]
  {
    OtherOrderHalf(b, b, ELFDATA2LSB, ELFDATA2MSB, 4);
    var r := StoredOver(b, ELFDATA2LSB, ELFDATA2MSB, 4);
    assert r[0] == 4 && r[1] == 3 && r[2] == 3 && r[3] == 4;
  }
}
