/**
 Byte encodings: numbers, structures and arrays of structures in either byte order.
 */
module ElfCoding {
  import opened Basics
  import opened Arithmetic
  import opened ElfTypes

  // ----- Numbers -----

  /** The low `width` bytes of `n`, lowest first. */
  function Little(n: nat, width: nat): (b: seq<byte>)
    ensures |b| == width
  {
    if width == 0 then [] else [n % 256] + Little(n / 256, width - 1)
  }

  function LittleValue(b: seq<byte>): nat {
    if b == [] then 0 else b[0] + 256 * LittleValue(b[1..])
  }

  function Reverse(b: seq<byte>): (r: seq<byte>)
    ensures |r| == |b|
  {
    seq(|b|, i requires 0 <= i < |b| => b[|b| - 1 - i])
  }

  lemma ReverseTwice(b: seq<byte>)
    ensures Reverse(Reverse(b)) == b
  {
  }

  function Store(n: nat, width: nat, encoding: nat): (b: seq<byte>)
    ensures |b| == width
  {
    if encoding == ELFDATA2MSB then Reverse(Little(n, width)) else Little(n, width)
  }

  function Load(b: seq<byte>, encoding: nat): nat {
    LittleValue(if encoding == ELFDATA2MSB then Reverse(b) else b)
  }

  /** The lowest byte comes first in one byte order and last in the other. */
  lemma LoadFour(a: byte, b: byte, c: byte, d: byte)
    ensures Load([a, b, c, d], ELFDATA2LSB) == a + 256 * (b + 256 * (c + 256 * d))
    ensures Load([a, b, c, d], ELFDATA2MSB) == d + 256 * (c + 256 * (b + 256 * a))
  {
    LittleFour(a, b, c, d);
    LittleFour(d, c, b, a);
    assert Reverse([a, b, c, d]) == [d, c, b, a];
  }

  lemma LittleFour(a: byte, b: byte, c: byte, d: byte)
    ensures LittleValue([a, b, c, d]) == a + 256 * (b + 256 * (c + 256 * d))
  {
    assert [a, b, c, d][1..] == [b, c, d] && [b, c, d][1..] == [c, d] && [c, d][1..] == [d] && [d][1..] == [];
    assert LittleValue([d]) == d;
    assert LittleValue([c, d]) == c + 256 * d;
    assert LittleValue([b, c, d]) == b + 256 * (c + 256 * d);
  }

  lemma LoadTwo(a: byte, b: byte)
    ensures Load([a, b], ELFDATA2LSB) == a + 256 * b && Load([a, b], ELFDATA2MSB) == b + 256 * a
  {
    LittleTwo(a, b);
    LittleTwo(b, a);
    assert Reverse([a, b]) == [b, a];
  }

  lemma LittleTwo(a: byte, b: byte)
    ensures LittleValue([a, b]) == a + 256 * b
  {
    assert [a, b][1..] == [b] && [b][1..] == [];
    assert LittleValue([b]) == b;
  }

  function Range(width: nat): (r: nat)
    ensures r > 0
  {
    if width == 0 then 1 else 256 * Range(width - 1)
  }

  lemma {:induction false} LittleStored(n: nat, width: nat)
    requires n < Range(width)
    ensures LittleValue(Little(n, width)) == n
  {
    if width > 0 {
      LittleStored(n / 256, width - 1);
    }
  }

  lemma DigitStep(d: byte, v: nat, r: nat)
    requires v < r
    ensures (d + 256 * v) % 256 == d && (d + 256 * v) / 256 == v && d + 256 * v < 256 * r
  {
  }

  lemma {:induction false} LittleLoaded(b: seq<byte>)
    ensures LittleValue(b) < Range(|b|) && Little(LittleValue(b), |b|) == b
  {
    if b != [] {
      LittleLoaded(b[1..]);
      DigitStep(b[0], LittleValue(b[1..]), Range(|b| - 1));
      assert b == [b[0]] + b[1..];
    }
  }

  lemma Stored(n: nat, width: nat, encoding: nat)
    requires n < Range(width)
    ensures Load(Store(n, width, encoding), encoding) == n
  {
    LittleStored(n, width);
    ReverseTwice(Little(n, width));
  }

  lemma Loaded(b: seq<byte>, encoding: nat)
    ensures Load(b, encoding) < Range(|b|) && Store(Load(b, encoding), |b|, encoding) == b
  {
    ReverseTwice(b);
    LittleLoaded(if encoding == ELFDATA2MSB then Reverse(b) else b);
  }

  // ----- Structures -----

  function Size(widths: seq<nat>): nat {
    if widths == [] then 0 else widths[0] + Size(widths[1..])
  }

  function StoreAll(vs: seq<nat>, widths: seq<nat>, encoding: nat): (b: seq<byte>)
    requires |vs| == |widths|
    ensures |b| == Size(widths)
  {
    if vs == [] then [] else Store(vs[0], widths[0], encoding) + StoreAll(vs[1..], widths[1..], encoding)
  }

  function LoadAll(b: seq<byte>, widths: seq<nat>, encoding: nat): (vs: seq<nat>)
    requires |b| == Size(widths)
    ensures |vs| == |widths|
  {
    if widths == [] then [] else [Load(b[..widths[0]], encoding)] + LoadAll(b[widths[0]..], widths[1..], encoding)
  }

  predicate InRange(vs: seq<nat>, widths: seq<nat>) {
    |vs| == |widths| && forall i :: 0 <= i < |vs| ==> vs[i] < Range(widths[i])
  }

  lemma {:induction false} StoredAll(vs: seq<nat>, widths: seq<nat>, encoding: nat)
    requires InRange(vs, widths)
    ensures LoadAll(StoreAll(vs, widths, encoding), widths, encoding) == vs
  {
    if vs != [] {
      var b, rest := Store(vs[0], widths[0], encoding), StoreAll(vs[1..], widths[1..], encoding);
      SplitSum(b, rest, widths[0]);
      Stored(vs[0], widths[0], encoding);
      StoredAll(vs[1..], widths[1..], encoding);
      assert vs == [vs[0]] + vs[1..];
    }
  }

  lemma {:induction false} LoadedAll(b: seq<byte>, widths: seq<nat>, encoding: nat)
    requires |b| == Size(widths)
    ensures InRange(LoadAll(b, widths, encoding), widths)
    ensures StoreAll(LoadAll(b, widths, encoding), widths, encoding) == b
  {
    if widths != [] {
      Loaded(b[..widths[0]], encoding);
      LoadedAll(b[widths[0]..], widths[1..], encoding);
      var rest := LoadAll(b[widths[0]..], widths[1..], encoding);
      assert ([Load(b[..widths[0]], encoding)] + rest)[1..] == rest;
      assert b == b[..widths[0]] + b[widths[0]..];
    }
  }

  /** One structure, from one byte order to another. */
  function Recode(b: seq<byte>, widths: seq<nat>, from: nat, to: nat): (r: seq<byte>)
    requires |b| == Size(widths)
    ensures |r| == |b|
  {
    StoreAll(LoadAll(b, widths, from), widths, to)
  }

  lemma RecodedBack(b: seq<byte>, widths: seq<nat>, from: nat, to: nat)
    requires |b| == Size(widths)
    ensures LoadAll(Recode(b, widths, from, to), widths, to) == LoadAll(b, widths, from)
    ensures Recode(Recode(b, widths, from, to), widths, to, from) == b
  {
    LoadedAll(b, widths, from);
    StoredAll(LoadAll(b, widths, from), widths, to);
  }

  // ----- Arrays of structures -----

  /** The bytes of all whole elements of `size` bytes. */
  function Whole(len: nat, size: nat): (r: nat)
    ensures r <= len
  {
    if size == 0 then len
    else
      assert len == len / size * size + len % size;
      len / size * size
  }

  /** All whole elements; a remainder too short for an element is dropped. No widths means bytes. */
  function RecodeArray(b: seq<byte>, widths: seq<nat>, from: nat, to: nat): (r: seq<byte>)
    ensures |r| == Whole(|b|, Size(widths))
  {
    var n := Size(widths);
    if n == 0 then b
    else if |b| < n then []
    else
      QuotientStep(|b|, n);
      Recode(b[..n], widths, from, to) + RecodeArray(b[n..], widths, from, to)
  }

  lemma {:induction false} ArrayRecodedBack(b: seq<byte>, widths: seq<nat>, from: nat, to: nat)
    ensures RecodeArray(RecodeArray(b, widths, from, to), widths, to, from) == b[..|RecodeArray(b, widths, from, to)|]
  {
    var n := Size(widths);
    if n > 0 && |b| >= n {
      RecodedBack(b[..n], widths, from, to);
      ArrayRecodedBack(b[n..], widths, from, to);
      var first, rest := Recode(b[..n], widths, from, to), RecodeArray(b[n..], widths, from, to);
      SplitSum(first, rest, n);
      TakeSplit(b, n, |rest|);
    }
  }

  // ----- The headers -----

  function ToHalf(n: nat): (h: Half)
    ensures n < HALF ==> h == n
  {
    n % HALF
  }

  function EhdrValues(h: Ehdr): (vs: seq<nat>)
    ensures |vs| == 29
  {
    h.ident + [h.etype, h.machine, h.version, h.entry, h.phoff, h.shoff, h.flags,
               h.ehsize, h.phentsize, h.phnum, h.shentsize, h.shnum, h.shstrndx]
  }

  function EhdrFrom(vs: seq<nat>): Ehdr
    requires |vs| == 29
  {
    Ehdr(seq(16, i requires 0 <= i < 16 => vs[i] % 256),
         ToHalf(vs[16]), ToHalf(vs[17]), ToWord(vs[18]), ToWord(vs[19]), ToWord(vs[20]), ToWord(vs[21]), ToWord(vs[22]),
         ToHalf(vs[23]), ToHalf(vs[24]), ToHalf(vs[25]), ToHalf(vs[26]), ToHalf(vs[27]), ToHalf(vs[28]))
  }

  function PhdrValues(h: Phdr): (vs: seq<nat>)
    ensures |vs| == 8
  {
    [h.ptype, h.offset, h.vaddr, h.paddr, h.filesz, h.memsz, h.flags, h.align]
  }

  function PhdrFrom(vs: seq<nat>): Phdr
    requires |vs| == 8
  {
    Phdr(ToWord(vs[0]), ToWord(vs[1]), ToWord(vs[2]), ToWord(vs[3]),
         ToWord(vs[4]), ToWord(vs[5]), ToWord(vs[6]), ToWord(vs[7]))
  }

  function ShdrValues(h: Shdr): (vs: seq<nat>)
    ensures |vs| == 10
  {
    [h.name, h.stype, h.flags, h.addr, h.offset, h.size, h.link, h.info, h.addralign, h.entsize]
  }

  function ShdrFrom(vs: seq<nat>): Shdr
    requires |vs| == 10
  {
    Shdr(ToWord(vs[0]), ToWord(vs[1]), ToWord(vs[2]), ToWord(vs[3]), ToWord(vs[4]),
         ToWord(vs[5]), ToWord(vs[6]), ToWord(vs[7]), ToWord(vs[8]), ToWord(vs[9]))
  }

  lemma {:induction false} SizeOfSum(a: seq<nat>, b: seq<nat>)
    ensures Size(a + b) == Size(a) + Size(b)
  {
    if a == [] {
      assert a + b == b;
    } else {
      assert (a + b)[1..] == a[1..] + b;
      SizeOfSum(a[1..], b);
    }
  }

  lemma EhdrSize()
    ensures |Fields(TEhdr)| == 29 && Size(Fields(TEhdr)) == EHDR_SIZE
  {
    var ones, low, high := [1, 1, 1, 1, 1, 1, 1, 1], [2, 2, 4, 4, 4, 4, 4], [2, 2, 2, 2, 2, 2];
    assert Size(ones) == 8 && Size(low) == 24 && Size(high) == 12;
    SizeOfSum(ones, ones);
    SizeOfSum(ones + ones, low);
    SizeOfSum(ones + ones + low, high);
  }

  lemma HeaderSizes()
    ensures Size(Fields(TPhdr)) == PHDR_SIZE && |Fields(TPhdr)| == 8
    ensures Size(Fields(TShdr)) == SHDR_SIZE && |Fields(TShdr)| == 10
  {
  }

  function StoreEhdr(h: Ehdr, encoding: nat): (b: seq<byte>)
    ensures |b| == EHDR_SIZE
  {
    EhdrSize();
    StoreAll(EhdrValues(h), Fields(TEhdr), encoding)
  }

  function LoadEhdr(b: seq<byte>, encoding: nat): Ehdr
    requires |b| == EHDR_SIZE
  {
    EhdrSize();
    EhdrFrom(LoadAll(b, Fields(TEhdr), encoding))
  }

  function StorePhdr(h: Phdr, encoding: nat): (b: seq<byte>)
    ensures |b| == PHDR_SIZE
  {
    HeaderSizes();
    StoreAll(PhdrValues(h), Fields(TPhdr), encoding)
  }

  function LoadPhdr(b: seq<byte>, encoding: nat): Phdr
    requires |b| == PHDR_SIZE
  {
    HeaderSizes();
    PhdrFrom(LoadAll(b, Fields(TPhdr), encoding))
  }

  function StoreShdr(h: Shdr, encoding: nat): (b: seq<byte>)
    ensures |b| == SHDR_SIZE
  {
    HeaderSizes();
    StoreAll(ShdrValues(h), Fields(TShdr), encoding)
  }

  function LoadShdr(b: seq<byte>, encoding: nat): Shdr
    requires |b| == SHDR_SIZE
  {
    HeaderSizes();
    ShdrFrom(LoadAll(b, Fields(TShdr), encoding))
  }

  lemma Ranges()
    ensures Range(1) == 256 && Range(2) == HALF && Range(4) == WORD
  {
    assert Range(4) == 256 * Range(3) && Range(3) == 256 * Range(2);
  }

  lemma EhdrInRange(h: Ehdr)
    ensures InRange(EhdrValues(h), Fields(TEhdr)) && EhdrFrom(EhdrValues(h)) == h
  {
    Ranges();
    var ws := Fields(TEhdr);
    assert forall i :: 0 <= i < 16 ==> ws[i] == 1 && EhdrValues(h)[i] == h.ident[i];
    assert EhdrFrom(EhdrValues(h)).ident == h.ident;
  }

  lemma EhdrRoundTrip(h: Ehdr, encoding: nat)
    ensures LoadEhdr(StoreEhdr(h, encoding), encoding) == h
  {
    EhdrSize();
    EhdrInRange(h);
    StoredAll(EhdrValues(h), Fields(TEhdr), encoding);
  }

  lemma PhdrInRange(h: Phdr)
    ensures InRange(PhdrValues(h), Fields(TPhdr))
  {
    Ranges();
    assert forall i :: 0 <= i < 8 ==> Fields(TPhdr)[i] == 4;
  }

  lemma PhdrRoundTrip(h: Phdr, encoding: nat)
    ensures LoadPhdr(StorePhdr(h, encoding), encoding) == h
  {
    HeaderSizes();
    PhdrInRange(h);
    StoredAll(PhdrValues(h), Fields(TPhdr), encoding);
  }

  lemma ShdrInRange(h: Shdr)
    ensures InRange(ShdrValues(h), Fields(TShdr))
  {
    Ranges();
    assert forall i :: 0 <= i < 10 ==> Fields(TShdr)[i] == 4;
  }

  lemma ShdrRoundTrip(h: Shdr, encoding: nat)
    ensures LoadShdr(StoreShdr(h, encoding), encoding) == h
  {
    HeaderSizes();
    ShdrInRange(h);
    StoredAll(ShdrValues(h), Fields(TShdr), encoding);
  }

  /** The identification bytes are the same in either byte order. */
  lemma IdentStored(h: Ehdr, encoding: nat)
    ensures StoreEhdr(h, encoding)[..EI_NIDENT] == h.ident
  {
    EhdrInRange(h);
    BytesFirst(EhdrValues(h), Fields(TEhdr), encoding, 16);
  }

  lemma {:induction false} BytesFirst(vs: seq<nat>, widths: seq<nat>, encoding: nat, n: nat)
    requires InRange(vs, widths) && n <= |vs| && forall i :: 0 <= i < n ==> widths[i] == 1
    ensures n <= Size(widths) && StoreAll(vs, widths, encoding)[..n] == vs[..n]
  {
    if n > 0 {
      BytesFirst(vs[1..], widths[1..], encoding, n - 1);
      Ranges();
      assert Store(vs[0], 1, encoding) == [vs[0]];
      assert vs[..n] == [vs[0]] + vs[1..][..n - 1];
    }
  }
}
