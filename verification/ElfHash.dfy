/**
 The hash function of symbol names.
 */
module ElfHash {

  function HashStep(hash: bv64, c: bv8): bv64 {
    Folded((hash << 4) + (c as bv64))
  }

  /** The top four of the low 32 bits, if any is set, are added to lower bits and cleared. */
  function Folded(h: bv64): bv64 {
    var tmp := h & 0xf000_0000;
    if tmp != 0 then h ^ (tmp | (tmp >> 24)) else h
  }

  function HashOf(name: seq<bv8>, hash: bv64): bv64 {
    if name == [] then hash else HashOf(name[1..], HashStep(hash, name[0]))
  }

  lemma HashFrom(name: seq<bv8>, i: nat, hash: bv64)
    requires i < |name|
    ensures HashOf(name[i..], hash) == HashOf(name[i + 1..], HashStep(hash, name[i]))
  {
    assert name[i..][1..] == name[i + 1..];
  }

  method Hash(name: seq<bv8>) returns (hash: bv64)
    ensures hash == HashOf(name, 0)
  {
    hash := 0;
    var i := 0;
    while i < |name|
      invariant 0 <= i <= |name| && HashOf(name[i..], hash) == HashOf(name, 0)
    {
      HashFrom(name, i, hash);
      hash := Add(hash, name[i]);
      i := i + 1;
    }
  }

  method Add(hash0: bv64, c: bv8) returns (hash: bv64)
    ensures hash == HashStep(hash0, c)
  {
    hash := (hash0 << 4) + (c as bv64);
    StepIs(hash0, c, hash);
    hash := Fold(hash);
  }

  method Fold(hash0: bv64) returns (hash: bv64)
    ensures hash == Folded(hash0)
  {
    hash := hash0;
    var tmp := hash & 0xf000_0000;
    if tmp != 0 {
      hash := hash ^ (tmp | (tmp >> 24));
    }
  }

  // ----- The hash function of the ABI -----

  /** What a 32-bit unsigned integer keeps. */
  function Low(h: bv64): bv64 {
    h & 0xffff_ffff
  }

  /** The hash function of the System V gABI, chapter 5, "Hash Table", with an unsigned long of 32 bits. */
  function AbiHash(name: seq<bv8>, hash: bv64): bv64 {
    if name == [] then hash else AbiHash(name[1..], Low(HashStep(hash, name[0])))
  }

  /** Folding is the same without the test, as adding nothing changes nothing. */
  function Always(h: bv64): bv64 {
    h ^ ((h & 0xf000_0000) | ((h & 0xf000_0000) >> 24))
  }

  lemma FoldedAlways(h: bv64)
    ensures Folded(h) == Always(h) && Folded(h) & 0xf000_0000 == 0
  {
  }

  lemma LowFold(h: bv64)
    ensures Low(Always(Low(h))) == Low(Always(h))
  {
  }

  lemma SameLow(h: bv64, g: bv64)
    requires (h ^ g) & 0xffff_ffff == 0
    ensures Low(h) == Low(g)
  {
  }

  lemma LowFoldSame(h: bv64, g: bv64)
    requires (h ^ g) & 0xffff_ffff == 0
    ensures Low(Folded(h)) == Low(Folded(g))
  {
    SameLow(h, g);
    FoldedAlways(h);
    FoldedAlways(g);
    LowFold(h);
    LowFold(g);
  }

  lemma LowSum(h: bv64, c: bv64)
    ensures ((((h & 0xffff_ffff) << 4) + c) ^ ((h << 4) + c)) & 0xffff_ffff == 0
  {
  }

  lemma StepIs(hash: bv64, c: bv8, h: bv64)
    requires h == (hash << 4) + (c as bv64)
    ensures HashStep(hash, c) == Folded(h)
  {
  }

  lemma LowFoldSum(hash: bv64, c: bv64, g: bv64, h: bv64)
    requires g == ((hash & 0xffff_ffff) << 4) + c && h == (hash << 4) + c
    ensures Low(Folded(g)) == Low(Folded(h)) && Folded(h) & 0xf000_0000 == 0
  {
    LowSum(hash, c);
    LowFoldSame(g, h);
    FoldedAlways(h);
  }

  /** Both steps, given what is folded in each. */
  ghost predicate Summed(hash: bv64, c: bv8, g: bv64, h: bv64) {
    g == ((hash & 0xffff_ffff) << 4) + (c as bv64) && h == (hash << 4) + (c as bv64)
  }

  lemma SummedSteps(hash: bv64, c: bv8, g: bv64, h: bv64)
    requires Summed(hash, c, g, h)
    ensures HashStep(Low(hash), c) == Folded(g) && HashStep(hash, c) == Folded(h)
  {
  }

  lemma SummedFolds(hash: bv64, c: bv8, g: bv64, h: bv64)
    requires Summed(hash, c, g, h)
    ensures Low(Folded(g)) == Low(Folded(h)) && Folded(h) & 0xf000_0000 == 0
  {
    LowFoldSum(hash, c as bv64, g, h);
  }

  lemma LowStep(hash: bv64, c: bv8, g: bv64, h: bv64)
    requires Summed(hash, c, g, h)
    ensures Low(HashStep(Low(hash), c)) == Low(HashStep(hash, c))
    ensures HashStep(hash, c) & 0xf000_0000 == 0
  {
    SummedSteps(hash, c, g, h);
    SummedFolds(hash, c, g, h);
  }

  /** With a wider unsigned long the function still has the hash of the ABI in its low 32 bits, and the top four
      of them are zero. */
  lemma {:induction false} HashHasAbiHash(name: seq<bv8>, hash: bv64)
    requires hash & 0xf000_0000 == 0
    ensures Low(HashOf(name, hash)) == AbiHash(name, Low(hash)) && HashOf(name, hash) & 0xf000_0000 == 0
  {
    if name != [] {
      var c := name[0];
      var g, h := ((hash & 0xffff_ffff) << 4) + (c as bv64), (hash << 4) + (c as bv64);
      LowStep(hash, c, g, h);
      HashHasAbiHash(name[1..], HashStep(hash, name[0]));
    }
  }

  lemma SevenFifteens(name: seq<bv8>)
    requires |name| == 8 && (forall i :: 0 <= i < 7 ==> name[i] == 0xf) && name[7] == 0xff
    ensures HashOf(name, 0) == HashOf([0xff], 0xfff_ffff)
  {
    HashFrom(name, 0, 0);
    HashFrom(name, 1, 0xf);
    HashFrom(name, 2, 0xff);
    HashFrom(name, 3, 0xfff);
    HashFrom(name, 4, 0xffff);
    HashFrom(name, 5, 0xf_ffff);
    HashFrom(name, 6, 0xff_ffff);
    assert name[0..] == name && name[7..] == [0xff];
  }

  /** But not always the hash of the ABI: the last byte of this name carries into bit 32, which is never cleared. */
  lemma HashIsWider(name: seq<bv8>)
    requires name == [0xf, 0xf, 0xf, 0xf, 0xf, 0xf, 0xf, 0xff]
    ensures HashOf(name, 0) == 0x1_0000_00ef && AbiHash(name, 0) == 0xef
  {
    SevenFifteens(name);
    var last: seq<bv8> := [0xff];
    assert last[1..] == [] && HashOf(last, 0xfff_ffff) == HashStep(0xfff_ffff, 0xff);
    HashHasAbiHash(name, 0);
  }

  // ----- When it is the hash of the ABI -----

  /** The next byte carries out of 32 bits. */
  predicate CarriesOut(low: bv64, c: bv8) {
    ((low << 4) + (c as bv64)) >> 32 != 0
  }

  /** None of the last `k` bytes carries out of 32 bits. */
  predicate NoLateCarry(name: seq<bv8>, k: nat) {
    forall i {:trigger name[i]} :: 0 <= i < |name| && |name| <= i + k ==> !CarriesOut(AbiHash(name[..i], 0), name[i])
  }

  /** The `k` lowest nibbles above the low 32 bits. */
  function Nibbles(k: nat): bv64
    requires k <= 8
  {
    match k
    case 0 => 0
    case 1 => 0xf_0000_0000
    case 2 => 0xff_0000_0000
    case 3 => 0xfff_0000_0000
    case 4 => 0xffff_0000_0000
    case 5 => 0xf_ffff_0000_0000
    case 6 => 0xff_ffff_0000_0000
    case 7 => 0xfff_ffff_0000_0000
    case _ => 0xffff_ffff_0000_0000
  }

  /** Masks of the high half, the second one nibble longer than the first. */
  ghost predicate NextMask(m: bv64, m': bv64) {
    m & 0xf000_0000_ffff_ffff == 0 && m' == (m << 4) | 0xf_0000_0000
  }

  lemma NextNibbles(k: nat)
    requires k < 8
    ensures NextMask(Nibbles(k), Nibbles(k + 1))
  {
  }

  /** Folding leaves the high half alone. */
  lemma HighFold(h: bv64, m: bv64)
    requires m & 0xffff_ffff == 0
    ensures Folded(h) & m == h & m
  {
  }

  /** The high half moves up a nibble and takes the carry in. */
  lemma HighSum(h: bv64, c: bv64, m: bv64, m': bv64)
    requires h & 0xf000_0000 == 0 && c & 0xff == c && NextMask(m, m')
    ensures ((h << 4) + c) & m' == 0 <==> h & m == 0 && (((h & 0xffff_ffff) << 4) + c) >> 32 == 0
  {
  }

  lemma MaskIsHigh(m: bv64, m': bv64)
    requires NextMask(m, m')
    ensures m' & 0xffff_ffff == 0
  {
  }

  /** The masked part of a new hash `f`, given the old one and the sum `g` of its low half. */
  ghost predicate HighGoes(hash: bv64, m: bv64, m': bv64, g: bv64, f: bv64) {
    f & m' == 0 <==> hash & m == 0 && g >> 32 == 0
  }

  lemma HighOfSum(hash: bv64, x: bv64, m: bv64, m': bv64, g: bv64, h: bv64)
    requires hash & 0xf000_0000 == 0 && x & 0xff == x && NextMask(m, m')
    requires g == ((hash & 0xffff_ffff) << 4) + x && h == (hash << 4) + x
    ensures HighGoes(hash, m, m', g, h)
  {
    HighSum(hash, x, m, m');
  }

  lemma SameHigh(hash: bv64, m: bv64, m': bv64, g: bv64, h: bv64, f: bv64)
    requires f & m' == h & m' && HighGoes(hash, m, m', g, h)
    ensures HighGoes(hash, m, m', g, f)
  {
  }

  lemma HighFolded(h: bv64, m: bv64, m': bv64, f: bv64)
    requires NextMask(m, m') && f == Folded(h)
    ensures f & m' == h & m'
  {
  }

  lemma ByteFits(c: bv8, x: bv64)
    requires x == c as bv64
    ensures x & 0xff == x
  {
  }

  lemma CarryIs(low: bv64, c: bv8, x: bv64, g: bv64)
    requires x == c as bv64 && g == (low << 4) + x
    ensures CarriesOut(low, c) <==> g >> 32 != 0
  {
  }

  /** One step: the masks before and after it, what the low half sums up to, what all sums up to, and the new hash. */
  ghost predicate Stepped(hash: bv64, x: bv64, m: bv64, m': bv64, g: bv64, h: bv64, f: bv64) {
    && hash & 0xf000_0000 == 0 && x & 0xff == x && NextMask(m, m')
    && g == ((hash & 0xffff_ffff) << 4) + x && h == (hash << 4) + x && f == Folded(h)
  }

  lemma SteppedSum(hash: bv64, x: bv64, m: bv64, m': bv64, g: bv64, h: bv64, f: bv64)
    requires Stepped(hash, x, m, m', g, h, f)
    ensures HighGoes(hash, m, m', g, h)
  {
    HighOfSum(hash, x, m, m', g, h);
  }

  lemma SteppedFold(hash: bv64, x: bv64, m: bv64, m': bv64, g: bv64, h: bv64, f: bv64)
    requires Stepped(hash, x, m, m', g, h, f)
    ensures f & m' == h & m'
  {
    HighFolded(h, m, m', f);
  }

  lemma HighStep(hash: bv64, x: bv64, m: bv64, m': bv64, g: bv64, h: bv64, f: bv64)
    requires Stepped(hash, x, m, m', g, h, f)
    ensures HighGoes(hash, m, m', g, f)
  {
    SteppedSum(hash, x, m, m', g, h, f);
    SteppedFold(hash, x, m, m', g, h, f);
    SameHigh(hash, m, m', g, h, f);
  }

  /** What one more byte does to the hash. */
  lemma ByteAdded(hash: bv64, c: bv8, k: nat) returns (x: bv64, g: bv64, h: bv64)
    requires hash & 0xf000_0000 == 0 && k < 8
    ensures Stepped(hash, x, Nibbles(k), Nibbles(k + 1), g, h, HashStep(hash, c))
    ensures x == c as bv64
  {
    x := c as bv64;
    g, h := ((hash & 0xffff_ffff) << 4) + x, (hash << 4) + x;
    ByteFits(c, x);
    StepIs(hash, c, h);
    NextNibbles(k);
  }

  lemma {:induction false} HashSnoc(name: seq<bv8>, c: bv8, hash: bv64)
    ensures HashOf(name + [c], hash) == HashStep(HashOf(name, hash), c)
  {
    if name == [] {
      assert name + [c] == [c] && [c][1..] == [];
    } else {
      assert (name + [c])[1..] == name[1..] + [c];
      HashSnoc(name[1..], c, HashStep(hash, name[0]));
    }
  }

  lemma LateCarryMore(name: seq<bv8>, init: seq<bv8>, c: bv8, k: nat)
    requires name == init + [c] && k > 0
    ensures NoLateCarry(name, k) <==> NoLateCarry(init, k - 1) && !CarriesOut(AbiHash(init, 0), c)
  {
    var n := |init|;
    assert name[..n] == init && name[n] == c;
    forall i | 0 <= i < n
      ensures name[..i] == init[..i] && name[i] == init[i]
    {
    }
  }

  lemma CarryOfByte(hash: bv64, c: bv8, x: bv64, m: bv64, m': bv64, g: bv64, h: bv64, f: bv64)
    requires Stepped(hash, x, m, m', g, h, f) && x == c as bv64
    ensures CarriesOut(Low(hash), c) <==> g >> 32 != 0
  {
    CarryIs(Low(hash), c, x, g);
  }

  /** The `k` nibbles above the low 32 bits are zero. */
  ghost predicate ClearAbove(hash: bv64, k: nat)
    requires k <= 8
  {
    hash & Nibbles(k) == 0
  }

  lemma HighGone(hash: bv64, k: nat, m: bv64, m': bv64, g: bv64, f: bv64, carry: bool)
    requires k < 8 && m == Nibbles(k) && m' == Nibbles(k + 1)
    requires HighGoes(hash, m, m', g, f) && (carry <==> g >> 32 != 0)
    ensures ClearAbove(f, k + 1) <==> ClearAbove(hash, k) && !carry
  {
  }

  /** One more byte leaves the nibbles above the low half zero just if they were and it does not carry. */
  lemma ClearAfter(hash: bv64, c: bv8, k: nat, f: bv64, carry: bool)
    requires hash & 0xf000_0000 == 0 && k < 8 && f == HashStep(hash, c) && carry == CarriesOut(Low(hash), c)
    ensures ClearAbove(f, k + 1) <==> ClearAbove(hash, k) && !carry
  {
    var x, g, h := ByteAdded(hash, c, k);
    HighStep(hash, x, Nibbles(k), Nibbles(k + 1), g, h, f);
    CarryOfByte(hash, c, x, Nibbles(k), Nibbles(k + 1), g, h, f);
    HighGone(hash, k, Nibbles(k), Nibbles(k + 1), g, f, carry);
  }

  lemma ClearAtFirst(k: nat)
    requires k <= 8
    ensures ClearAbove(0, k)
  {
  }

  lemma ClearOfNone(hash: bv64)
    ensures ClearAbove(hash, 0)
  {
  }

  lemma ByteHashed(init: seq<bv8>, c: bv8, k: nat, hash: bv64, f: bv64, carry: bool)
    requires k < 8 && hash == HashOf(init, 0) && f == HashOf(init + [c], 0)
    requires carry == CarriesOut(AbiHash(init, 0), c)
    ensures ClearAbove(f, k + 1) <==> ClearAbove(hash, k) && !carry
  {
    HashSnoc(init, c, 0);
    HashHasAbiHash(init, 0);
    ClearAfter(hash, c, k, f, carry);
  }

  /** The `k` nibbles above the low 32 bits are zero just if none of the last `k` bytes carried. */
  lemma {:induction false} LateCarries(name: seq<bv8>, k: nat, hash: bv64)
    requires k <= 8 && hash == HashOf(name, 0)
    ensures ClearAbove(hash, k) <==> NoLateCarry(name, k)
    decreases k
  {
    if k == 0 {
      ClearOfNone(hash);
    } else if name == [] {
      ClearAtFirst(k);
    } else {
      var n := |name| - 1;
      var init, c := name[..n], name[n];
      assert name == init + [c];
      var before := HashOf(init, 0);
      LateCarries(init, k - 1, before);
      LateCarryMore(name, init, c, k);
      ByteHashed(init, c, k - 1, before, hash, CarriesOut(AbiHash(init, 0), c));
    }
  }

  lemma AllLow(hash: bv64, low: bv64, m: bv64)
    requires low == Low(hash) && m == 0xffff_ffff_0000_0000
    ensures hash & m == 0 <==> hash == low
  {
  }

  lemma AllClear(hash: bv64, low: bv64)
    requires low == Low(hash)
    ensures ClearAbove(hash, 8) <==> hash == low
  {
    AllLow(hash, low, Nibbles(8));
  }

  /** The function has the hash of the ABI if and only if none of the last eight bytes carries out of 32 bits; an
      earlier carry has left the 64 bits by then. */
  lemma HashIsAbiHash(name: seq<bv8>)
    ensures HashOf(name, 0) == AbiHash(name, 0) <==> NoLateCarry(name, 8)
  {
    HashHasAbiHash(name, 0);
    LateCarries(name, 8, HashOf(name, 0));
    AllClear(HashOf(name, 0), AbiHash(name, 0));
  }
}
