/**
 Looking up symbols by name through a chained hash table.
 */
module ElfSymbols {
  import opened Basics
  import opened ElfTypes
  import opened ElfCoding
  import opened ElfMirrors
  import opened ElfPatches
  import opened ElfWriter
  import opened ElfReader
  import ElfHash

  const PRIME: nat := 217

  /** A string of C: no zero among its bytes. */
  type CString = s: seq<byte> | 0 !in s

  // ----- Buckets -----

  function Chars(name: CString): (cs: seq<bv8>)
    ensures |cs| == |name|
  {
    seq(|name|, i requires 0 <= i < |name| => name[i] as bv8)
  }

  function HashOf(name: CString): bv64 {
    ElfHash.HashOf(Chars(name), 0)
  }

  function BucketOf(hash: bv64): (b: nat)
    ensures b < PRIME
  {
    hash as nat % PRIME
  }

  // ----- Chains -----

  function Bucket(name: CString): (b: nat)
    ensures b < PRIME
  {
    BucketOf(HashOf(name))
  }

  /** The highest index below `i` of a named symbol in bucket `b`; zero if there is none. */
  function LastInBucket(names: seq<CString>, b: nat, i: nat): (r: nat)
    requires i <= |names|
    ensures r == 0 || (r < i && names[r] != [] && Bucket(names[r]) == b)
  {
    if i <= 1 then 0
    else if names[i - 1] != [] && Bucket(names[i - 1]) == b then i - 1
    else LastInBucket(names, b, i - 1)
  }

  /** The highest index below `i` of a symbol with the given name; zero if there is none. */
  function LastNamed(names: seq<CString>, name: CString, i: nat): (r: nat)
    requires i <= |names|
    ensures r == 0 || (r < i && names[r] == name)
  {
    if i <= 1 then 0
    else if names[i - 1] == name then i - 1
    else LastNamed(names, name, i - 1)
  }

  lemma {:induction false} LastNamedIsLast(names: seq<CString>, name: CString, i: nat, k: nat)
    requires i <= |names| && LastNamed(names, name, i) < k < i
    ensures names[k] != name
    decreases i
  {
    if k < i - 1 {
      LastNamedIsLast(names, name, i - 1, k);
    }
  }

  /** Symbols of other buckets have other names. */
  lemma {:induction false} OtherBuckets(names: seq<CString>, name: CString, i: nat)
    requires i <= |names| && name != []
    ensures LastNamed(names, name, i)
         == var j := LastInBucket(names, Bucket(name), i);
            if j > 0 && names[j] == name then j else LastNamed(names, name, j)
    decreases i
  {
    if i > 1 {
      OtherBuckets(names, name, i - 1);
    }
  }

  datatype HashEntry = HashEntry(name: CString, hash: bv64, next: nat)

  /** The buckets lead to the last symbols below `i` that are in them. */
  ghost predicate Heads(first: seq<nat>, names: seq<CString>, i: nat)
    requires i <= |names|
  {
    |first| == PRIME && forall b {:trigger first[b]} :: 0 <= b < PRIME ==> first[b] == LastInBucket(names, b, i)
  }

  /** Every named symbol below `i` leads to the one before it in its bucket, so indices fall along a chain. */
  ghost predicate Links(table: seq<HashEntry>, names: seq<CString>, i: nat)
    requires i <= |names|
  {
    |table| == |names| && forall j {:trigger table[j]} :: 1 <= j < i && names[j] != [] ==> table[j] == EntryAt(names, j)
  }

  function EntryAt(names: seq<CString>, j: nat): HashEntry
    requires j < |names|
  {
    HashEntry(names[j], HashOf(names[j]), LastInBucket(names, Bucket(names[j]), j))
  }

  lemma BucketStep(names: seq<CString>, b: nat, i: nat, i': nat)
    requires 1 <= i < |names| && i' == i + 1
    ensures LastInBucket(names, b, i')
            == if names[i] != [] && Bucket(names[i]) == b then i else LastInBucket(names, b, i)
  {
  }

  lemma HeadsStep(first: seq<nat>, names: seq<CString>, i: nat, i': nat)
    requires 1 <= i < |names| && i' == i + 1 && Heads(first, names, i)
    ensures Heads(if names[i] == [] then first else first[Bucket(names[i]) := i], names, i')
  {
    forall b | 0 <= b < PRIME
      ensures LastInBucket(names, b, i') == if names[i] != [] && Bucket(names[i]) == b then i else first[b]
    {
      BucketStep(names, b, i, i');
    }
  }

  lemma LinksSkip(table: seq<HashEntry>, names: seq<CString>, i: nat, i': nat)
    requires 1 <= i < |names| && i' == i + 1 && names[i] == [] && Links(table, names, i)
    ensures Links(table, names, i')
  {
    forall j {:trigger table[j]} | 1 <= j < i' && names[j] != []
      ensures table[j] == EntryAt(names, j)
    {
      assert j < i;
    }
  }

  lemma LinksStep(table: seq<HashEntry>, names: seq<CString>, i: nat, i': nat)
    requires 1 <= i < |names| && i' == i + 1 && Links(table, names, i)
    ensures Links(table[i := EntryAt(names, i)], names, i')
  {
  }

  // ----- Building the table and looking up -----

  /** The string at `off` of a string table, up to its end mark. */
  function NameAt(strtab: seq<byte>, off: nat): CString
    decreases |strtab| - off
  {
    if off >= |strtab| || strtab[off] == 0 then []
    else [strtab[off]] + NameAt(strtab, off + 1)
  }

  function NamesOf(offs: seq<nat>, strtab: seq<byte>): (names: seq<CString>)
    ensures |names| == |offs|
  {
    seq(|offs|, i requires 0 <= i < |offs| => NameAt(strtab, offs[i]))
  }

  /** Every symbol but the first has its name inside the string table. */
  predicate NamesInside(offs: seq<nat>, strtab: seq<byte>) {
    forall i {:trigger offs[i]} :: 1 <= i < |offs| ==> offs[i] < |strtab|
  }

  method BuildTable(offs: seq<nat>, strtab: seq<byte>) returns (ok: bool, first: array<nat>, table: array<HashEntry>)
    requires offs != []
    ensures fresh(first) && fresh(table) && ok == NamesInside(offs, strtab)
    ensures ok ==> Heads(first[..], NamesOf(offs, strtab), |offs|) && Links(table[..], NamesOf(offs, strtab), |offs|)
  {
    ghost var names := NamesOf(offs, strtab);
    first := new nat[PRIME](_ => 0);
    table := new HashEntry[|offs|](_ => HashEntry([], 0, 0));
    ok := true;
    var i := 1;
    while i < |offs|
      invariant 1 <= i <= |offs| && fresh(first) && fresh(table)
      invariant forall j {:trigger offs[j]} :: 1 <= j < i ==> offs[j] < |strtab|
      invariant Heads(first[..], names, i) && Links(table[..], names, i)
    {
      if offs[i] >= |strtab| {
        return false, first, table;
      }
      ghost var i' := i + 1;
      Enter(first, table, names, NameAt(strtab, offs[i]), i, i');
      i := i + 1;
    }
  }

  /** Enters symbol `i`, if it has a name, in front of its chain. */
  method Enter(first: array<nat>, table: array<HashEntry>, ghost names: seq<CString>, name: CString, i: nat,
               ghost i': nat)
    requires 1 <= i < |names| && i' == i + 1 && name == names[i]
    requires Heads(first[..], names, i) && Links(table[..], names, i)
    modifies first, table
    ensures Heads(first[..], names, i') && Links(table[..], names, i')
  {
    HeadsStep(first[..], names, i, i');
    if name != [] {
      LinksStep(table[..], names, i, i');
      EnterNamed(first, table, names, name, i);
    } else {
      LinksSkip(table[..], names, i, i');
    }
  }

  method EnterNamed(first: array<nat>, table: array<HashEntry>, ghost names: seq<CString>, name: CString, i: nat)
    requires 1 <= i < |names| && name == names[i] && Heads(first[..], names, i) && table.Length == |names|
    modifies first, table
    ensures first[..] == old(first[..])[Bucket(name) := i] && table[..] == old(table[..])[i := EntryAt(names, i)]
  {
    var hash := ElfHash.Hash(Chars(name));
    var h := BucketOf(hash);
    table[i] := HashEntry(name, hash, first[h]);
    first[h] := i;
  }

  method Lookup(first: array<nat>, table: array<HashEntry>, ghost names: seq<CString>, name: CString) returns (i: nat)
    requires name != [] && Heads(first[..], names, |names|) && Links(table[..], names, |names|)
    ensures i == LastNamed(names, name, |names|)
  {
    var hash := ElfHash.Hash(Chars(name));
    i := first[BucketOf(hash)];
    OtherBuckets(names, name, |names|);
    while i != 0
      invariant i == 0 || (i < |names| && names[i] != [] && Bucket(names[i]) == Bucket(name))
      invariant LastNamed(names, name, |names|) == if i > 0 && names[i] == name then i else LastNamed(names, name, i)
      decreases i
    {
      if table[i].hash == hash && table[i].name == name {
        return;
      }
      OtherBuckets(names, name, i);
      i := table[i].next;
    }
  }

  // ----- The symbols of a file -----

  datatype Symbol = Symbol(name: nat, value: nat, shndx: nat)

  function SymbolAt(b: seq<byte>, native: nat): Symbol
    requires |b| == 16
  {
    SymSize();
    var vs := LoadAll(b, Fields(TSym), native);
    Symbol(vs[0], vs[1], vs[5])
  }

  lemma SymSize()
    ensures Size(Fields(TSym)) == 16 && |Fields(TSym)| == 6
  {
    SizeOfSum([4, 4, 4], [1, 1, 2]);
    assert Fields(TSym) == [4, 4, 4] + [1, 1, 2];
  }

  function SymbolsOf(b: seq<byte>, native: nat): seq<Symbol> {
    if |b| < 16 then [] else [SymbolAt(b[..16], native)] + SymbolsOf(b[16..], native)
  }

  /** The first section of type SHT_SYMTAB, or else the last one of type SHT_DYNSYM. */
  predicate IsSymbolTable(shdrs: seq<Shdr>, i: nat) {
    && i < |shdrs|
    && (if shdrs[i].stype == SHT_SYMTAB then forall j :: 0 <= j < i ==> shdrs[j].stype != SHT_SYMTAB
        else
          && shdrs[i].stype == SHT_DYNSYM
          && (forall j :: 0 <= j < |shdrs| ==> shdrs[j].stype != SHT_SYMTAB)
          && (forall j :: i < j < |shdrs| ==> shdrs[j].stype != SHT_DYNSYM))
  }

  method FindSymbolTable(shdrs: seq<Shdr>) returns (r: Option<nat>)
    ensures r.Some? ==> IsSymbolTable(shdrs, r.value)
    ensures r.None? ==> forall j :: 0 <= j < |shdrs| ==> shdrs[j].stype != SHT_SYMTAB && shdrs[j].stype != SHT_DYNSYM
  {
    r := None;
    var i := 0;
    while i < |shdrs|
      invariant 0 <= i <= |shdrs| && forall j :: 0 <= j < i ==> shdrs[j].stype != SHT_SYMTAB
      invariant r.None? ==> forall j :: 0 <= j < i ==> shdrs[j].stype != SHT_DYNSYM
      invariant r.Some? ==>
        && r.value < i && shdrs[r.value].stype == SHT_DYNSYM
        && forall j :: r.value < j < i ==> shdrs[j].stype != SHT_DYNSYM
    {
      if shdrs[i].stype == SHT_SYMTAB {
        return Some(i);
      }
      if shdrs[i].stype == SHT_DYNSYM {
        r := Some(i);
      }
      i := i + 1;
    }
  }

  lemma SymbolTableIsUnique(shdrs: seq<Shdr>, i: nat, j: nat)
    requires IsSymbolTable(shdrs, i) && IsSymbolTable(shdrs, j)
    ensures i == j
  {
  }

  // ----- Looking up a list of names -----

  datatype Wanted = Wanted(name: CString, value: nat, scnum: nat, ntype: nat, sclass: nat, numaux: nat)

  /** The value and section of the last symbol with the wanted name, or zeros; the other fields are always zero. */
  function Found(syms: seq<Symbol>, names: seq<CString>, w: Wanted): Wanted
    requires |names| == |syms|
  {
    var i := LastNamed(names, w.name, |names|);
    if i == 0 then Wanted(w.name, 0, 0, 0, 0, 0) else Wanted(w.name, syms[i].value, syms[i].shndx, 0, 0, 0)
  }

  /** The number of entries before the first with an empty name. */
  function Names(nl: seq<Wanted>): (n: nat)
    ensures n <= |nl| && (n < |nl| ==> nl[n].name == []) && forall k :: 0 <= k < n ==> nl[k].name != []
  {
    if nl == [] || nl[0].name == [] then 0
    else
      var n := Names(nl[1..]) + 1;
      assert forall k :: 0 < k < n ==> nl[k] == nl[1..][k - 1];
      n
  }

  function Offsets(syms: seq<Symbol>): (offs: seq<nat>)
    ensures |offs| == |syms|
  {
    seq(|syms|, i requires 0 <= i < |syms| => syms[i].name)
  }

  method LookupAll(syms: seq<Symbol>, strtab: seq<byte>, nl: array<Wanted>) returns (ok: bool)
    requires syms != []
    modifies nl
    ensures ok == NamesInside(Offsets(syms), strtab)
    ensures !ok ==> nl[..] == old(nl[..])
    ensures ok ==> forall k :: 0 <= k < nl.Length ==>
      nl[k] == if k < Names(old(nl[..])) then Found(syms, NamesOf(Offsets(syms), strtab), old(nl[k])) else old(nl[k])
  {
    var first, table;
    ok, first, table := BuildTable(Offsets(syms), strtab);
    if !ok {
      return;
    }
    ghost var names := NamesOf(Offsets(syms), strtab);
    ghost var n := Names(nl[..]);
    var k := 0;
    while k < nl.Length && nl[k].name != []
      modifies nl
      invariant 0 <= k <= n
      invariant forall j {:trigger nl[j]} :: 0 <= j < nl.Length ==>
                nl[j] == if j < k then Found(syms, names, old(nl[j])) else old(nl[j])
    {
      assert nl[k] == old(nl[k]);
      LookupOne(first, table, names, syms, nl, k);
      k := k + 1;
    }
    assert k == n;
  }

  method LookupOne(first: array<nat>, table: array<HashEntry>, ghost names: seq<CString>, syms: seq<Symbol>,
                   nl: array<Wanted>, k: nat)
    requires |names| == |syms| && k < nl.Length && nl[k].name != []
    requires Heads(first[..], names, |names|) && Links(table[..], names, |names|)
    modifies nl
    ensures nl[k] == Found(syms, names, old(nl[k]))
    ensures forall j {:trigger nl[j]} :: 0 <= j < nl.Length && j != k ==>
              nl[j] == old(nl[j])
  {
    var i := Lookup(first, table, names, nl[k].name);
    var value, scnum := 0, 0;
    if i != 0 {
      value, scnum := syms[i].value, syms[i].shndx;
    }
    nl[k] := Wanted(nl[k].name, value, scnum, 0, 0, 0);
  }

  // ----- From the file -----

  function StringsRead(image: seq<byte>, hs: Headers, native: nat, i: nat, link: nat): Cooked<Contents>
    requires i < |hs.shdrs| && link < |hs.shdrs|
  {
    var encoding := hs.ehdr.ident[EI_DATA];
    var touched := Touched(image, hs.shdrs[i], GetData(image, hs.shdrs[i], i, encoding, native));
    GetData(touched, hs.shdrs[link], link, encoding, native)
  }

  /** The symbols `syms` and the string table `strtab` of a file, by way of its section `i`. The strings are read
      after the symbols have been translated where they are. */
  predicate TablesAt(image: seq<byte>, hs: Headers, native: nat, i: nat, syms: seq<Symbol>, strtab: seq<byte>) {
    && IsSymbolTable(hs.shdrs, i)
    && var link := hs.shdrs[i].link;
       && 0 < link < |hs.shdrs| && hs.shdrs[link].stype == SHT_STRTAB
       && var encoding := hs.ehdr.ident[EI_DATA];
          var symdata, strdata := GetData(image, hs.shdrs[i], i, encoding, native),
              StringsRead(image, hs, native, i, link);
          && symdata.Cooked? && symdata.value.Contents? && syms == SymbolsOf(symdata.value.bytes, native) && syms != []
          && strdata.Cooked? && strdata.value.Contents? && strtab == strdata.value.bytes && strtab != []
  }

  /** The byte that byte `p` of the symbol table `h` trades with when the symbols are turned around. */
  function SymbolMirror(h: Shdr, p: nat): nat
    requires h.offset <= p
  {
    SymSize();
    h.offset + ArrayMirror(Fields(TSym), p - h.offset)
  }

  /** Every byte of the string table `g` that is among the first `n` bytes of the symbol table `h` is the same as the
      one it trades with when the symbols are turned around. */
  predicate OverlapReadsSame(image: seq<byte>, h: Shdr, g: Shdr, n: nat) {
    forall p | g.offset <= p < g.offset + g.size && h.offset <= p < h.offset + n ::
      p < |image| && SymbolMirror(h, p) < |image| ==> image[p] == image[SymbolMirror(h, p)]
  }

  lemma StringBytes(image: seq<byte>, g: Shdr, j: nat, encoding: nat, native: nat)
    requires SectionType(g.stype) == TByte && GetData(image, g, j, encoding, native).Cooked?
    requires GetData(image, g, j, encoding, native).value.Contents?
    ensures g.offset + g.size <= |image|
    ensures GetData(image, g, j, encoding, native) == Cooked(Contents(TByte, image[g.offset..g.offset + g.size]))
    ensures forall other: seq<byte> :: |other| == |image| ==>
              GetData(other, g, j, encoding, native) == Cooked(Contents(TByte, other[g.offset..g.offset + g.size]))
  {
  }

  lemma BytesRead(image: seq<byte>, h: Shdr, i: nat, encoding: nat, native: nat, t: ElfType, bytes: seq<byte>, end: nat)
    requires KindOf(t).None? && SectionType(h.stype) == t && end == h.offset + h.size
    requires GetData(image, h, i, encoding, native) == Cooked(Contents(t, bytes))
    ensures end <= |image| && bytes == RecodeArray(image[h.offset..end], Fields(t), encoding, native)
  {
    GotContents(image, h, i, encoding, native, Cooked(Contents(t, bytes)), end);
  }

  lemma SliceAt(a: seq<byte>, lo: nat, hi: nat, k: nat, p: nat, b: seq<byte>)
    requires lo <= hi <= |a| && k < hi - lo && p == lo + k && b == a[lo..hi]
    ensures b[k] == a[p]
  {
  }

  /** What is in the file at place `p` of the symbol table after the symbols were read. */
  predicate ShownAt(image: seq<byte>, h: Shdr, encoding: nat, native: nat, after: seq<byte>, p: nat)
    requires h.offset <= p
  {
    && p < |image| == |after| && SymbolMirror(h, p) < |image|
    && after[p] == if SameOrder(encoding, native) then image[p] else image[SymbolMirror(h, p)]
  }

  /** A byte of an array of structures that was read from a place in the file. */
  lemma ArrayAt(image: seq<byte>, at: nat, end: nat, ws: seq<nat>, from: nat, to: nat, r: seq<byte>, p: nat, k: nat,
                q: nat)
    requires at <= end <= |image| && Size(ws) > 0 && r == RecodeArray(image[at..end], ws, from, to) && k < |r|
    requires p == at + k && q == at + ArrayMirror(ws, k)
    ensures p < |image| && q < |image| && r[k] == if SameOrder(from, to) then image[p] else image[q]
  {
    var b := image[at..end];
    ArrayByte(b, ws, from, to, k, r);
    SliceAt(image, at, end, k, p, b);
    SliceAt(image, at, end, ArrayMirror(ws, k), q, b);
  }

  lemma TouchedArray(image: seq<byte>, at: nat, end: nat, ws: seq<nat>, from: nat, to: nat, r: seq<byte>,
                     after: seq<byte>, p: nat, k: nat, q: nat)
    requires at <= end <= |image| && Size(ws) > 0 && r == RecodeArray(image[at..end], ws, from, to) && k < |r|
    requires p == at + k && q == at + ArrayMirror(ws, k)
    requires |after| == |image| && at + |r| <= |image| && after[at..at + |r|] == r
    ensures p < |image| && q < |image| && after[p] == if SameOrder(from, to) then image[p] else image[q]
  {
    ArrayAt(image, at, end, ws, from, to, r, p, k, q);
    SliceAt(after, at, at + |r|, k, p, r);
  }

  lemma TouchedSymbol(image: seq<byte>, h: Shdr, encoding: nat, native: nat, syms: seq<byte>, after: seq<byte>, p: nat,
                      k: nat, end: nat, ws: seq<nat>)
    requires ws == Fields(TSym) && Size(ws) > 0
    requires h.offset <= end <= |image| && syms == RecodeArray(image[h.offset..end], ws, encoding, native)
    requires p == h.offset + k && k < |syms| && |after| == |image| && h.offset + |syms| <= |image|
    requires after[h.offset..h.offset + |syms|] == syms
    ensures ShownAt(image, h, encoding, native, after, p)
  {
    var q := h.offset + ArrayMirror(ws, k);
    assert q == SymbolMirror(h, p);
    TouchedArray(image, h.offset, end, ws, encoding, native, syms, after, p, k, q);
  }

  lemma SameSlice(a: seq<byte>, b: seq<byte>, lo: nat, hi: nat)
    requires |a| == |b| && lo <= hi <= |a|
    ensures a[lo..hi] == b[lo..hi] <==> forall p: nat | lo <= p < hi :: a[p] == b[p]
  {
    if a[lo..hi] == b[lo..hi] {
      forall p: nat | lo <= p < hi
        ensures a[p] == b[p]
      {
        assert a[lo..hi][p - lo] == b[lo..hi][p - lo];
      }
    }
  }

  lemma ShownSame(image: seq<byte>, h: Shdr, g: Shdr, encoding: nat, native: nat, after: seq<byte>, n: nat)
    requires |after| == |image| && g.offset + g.size <= |image|
    requires forall p: nat | h.offset <= p < h.offset + n :: ShownAt(image, h, encoding, native, after, p)
    requires forall p: nat | p < |image| && !(h.offset <= p < h.offset + n) :: after[p] == image[p]
    ensures (forall p: nat | g.offset <= p < g.offset + g.size :: after[p] == image[p])
       <==> SameOrder(encoding, native) || OverlapReadsSame(image, h, g, n)
  {
    if !SameOrder(encoding, native) && forall p: nat | g.offset <= p < g.offset + g.size :: after[p] == image[p] {
      forall p | g.offset <= p < g.offset + g.size && h.offset <= p < h.offset + n
        ensures p < |image| && SymbolMirror(h, p) < |image| ==> image[p] == image[SymbolMirror(h, p)]
      {
        assert ShownAt(image, h, encoding, native, after, p);
      }
    }
    if SameOrder(encoding, native) || OverlapReadsSame(image, h, g, n) {
      forall p: nat | g.offset <= p < g.offset + g.size
        ensures after[p] == image[p]
      {
        if h.offset <= p < h.offset + n {
          assert ShownAt(image, h, encoding, native, after, p);
        }
      }
    }
  }

  lemma PatchedSlice(image: seq<byte>, at: nat, bytes: seq<byte>, after: seq<byte>)
    requires at + |bytes| <= |image| && after == Patch(image, Piece(at, bytes))
    ensures |after| == |image| && after[at..at + |bytes|] == bytes
    ensures forall p: nat | p < |image| && !(at <= p < at + |bytes|) :: after[p] == image[p]
  {
  }

  lemma AllShown(image: seq<byte>, h: Shdr, i: nat, encoding: nat, native: nat, syms: seq<byte>, after: seq<byte>)
    requires SectionType(h.stype) == TSym && GetData(image, h, i, encoding, native) == Cooked(Contents(TSym, syms))
    requires h.offset + |syms| <= |image| && after == Patch(image, Piece(h.offset, syms))
    ensures forall p: nat | h.offset <= p < h.offset + |syms| :: ShownAt(image, h, encoding, native, after, p)
  {
    var end := h.offset + h.size;
    SymSize();
    BytesRead(image, h, i, encoding, native, TSym, syms, end);
    PatchedSlice(image, h.offset, syms, after);
    forall p: nat | h.offset <= p < h.offset + |syms|
      ensures ShownAt(image, h, encoding, native, after, p)
    {
      TouchedSymbol(image, h, encoding, native, syms, after, p, p - h.offset, end, Fields(TSym));
    }
  }

  lemma TouchedString(image: seq<byte>, h: Shdr, i: nat, g: Shdr, encoding: nat, native: nat, syms: seq<byte>,
                      after: seq<byte>)
    requires SectionType(h.stype) == TSym && GetData(image, h, i, encoding, native) == Cooked(Contents(TSym, syms))
    requires h.offset + |syms| <= |image| && after == Patch(image, Piece(h.offset, syms))
    requires g.offset + g.size <= |image|
    ensures |after| == |image|
    ensures after[g.offset..g.offset + g.size] == image[g.offset..g.offset + g.size]
       <==> SameOrder(encoding, native) || OverlapReadsSame(image, h, g, |syms|)
  {
    AllShown(image, h, i, encoding, native, syms, after);
    PatchedSlice(image, h.offset, syms, after);
    ShownSlice(image, h, g, encoding, native, after, |syms|);
  }

  lemma ShownSlice(image: seq<byte>, h: Shdr, g: Shdr, encoding: nat, native: nat, after: seq<byte>, n: nat)
    requires |after| == |image| && g.offset + g.size <= |image|
    requires forall p: nat | h.offset <= p < h.offset + n :: ShownAt(image, h, encoding, native, after, p)
    requires forall p: nat | p < |image| && !(h.offset <= p < h.offset + n) :: after[p] == image[p]
    ensures after[g.offset..g.offset + g.size] == image[g.offset..g.offset + g.size]
       <==> SameOrder(encoding, native) || OverlapReadsSame(image, h, g, n)
  {
    ShownSame(image, h, g, encoding, native, after, n);
    SameSlice(after, image, g.offset, g.offset + g.size);
  }

  /** The strings read are those of the file if and only if it has the host's byte order, or all that the two tables
      share reads the same both ways; so they are, if the tables do not overlap. */
  lemma StringsOfTheFile(image: seq<byte>, hs: Headers, native: nat, i: nat, link: nat, syms: seq<byte>)
    requires IsSymbolTable(hs.shdrs, i) && link < |hs.shdrs| && hs.shdrs[link].stype == SHT_STRTAB
    requires GetData(image, hs.shdrs[i], i, hs.ehdr.ident[EI_DATA], native) == Cooked(Contents(TSym, syms))
    requires GetData(image, hs.shdrs[link], link, hs.ehdr.ident[EI_DATA], native).Cooked?
    requires GetData(image, hs.shdrs[link], link, hs.ehdr.ident[EI_DATA], native).value.Contents?
    ensures var strings := GetData(image, hs.shdrs[link], link, hs.ehdr.ident[EI_DATA], native);
            StringsRead(image, hs, native, i, link) == strings
            <==> SameOrder(hs.ehdr.ident[EI_DATA], native)
                 || OverlapReadsSame(image, hs.shdrs[i], hs.shdrs[link], |syms|)
    ensures ApartInFile(hs.shdrs[i], hs.shdrs[link]) ==>
              OverlapReadsSame(image, hs.shdrs[i], hs.shdrs[link], |syms|)
  {
    var encoding, h, g := hs.ehdr.ident[EI_DATA], hs.shdrs[i], hs.shdrs[link];
    var after := Touched(image, h, Cooked(Contents(TSym, syms)));
    StringBytes(image, g, link, encoding, native);
    TouchedString(image, h, i, g, encoding, native, syms, after);
    DataIsShort(image, h, i, encoding, native, Cooked(Contents(TSym, syms)));
  }

  lemma FirstWord(b: seq<byte>, encoding: nat)
    requires |b| == 16 && b[..4] == [1, 2, 3, 4]
    ensures |LoadAll(b, Fields(TSym), encoding)| == 6
    ensures LoadAll(b, Fields(TSym), encoding)[0] == if encoding == ELFDATA2MSB then 0x0102_0304 else 0x0403_0201
  {
    SymSize();
    assert Reverse([1, 2, 3, 4]) == [4, 3, 2, 1];
    assert LittleValue([4]) == 4 && LittleValue([3, 4]) == 0x403 && LittleValue([2, 3, 4]) == 0x4_0302;
    assert LittleValue([1]) == 1 && LittleValue([2, 1]) == 0x102 && LittleValue([3, 2, 1]) == 0x1_0203;
  }

  /** One symbol in the other encoding. */
  lemma SymbolChanges(image: seq<byte>) returns (out: seq<byte>)
    requires |image| == 16 && image[..4] == [1, 2, 3, 4]
    ensures out == RecodeArray(image, Fields(TSym), ELFDATA2MSB, ELFDATA2LSB) && |out| == 16 && out != image
  {
    SymSize();
    out := Recode(image, Fields(TSym), ELFDATA2MSB, ELFDATA2LSB);
    assert image[..16] == image && image[16..] == [] && out + [] == out;
    RecodedBack(image, Fields(TSym), ELFDATA2MSB, ELFDATA2LSB);
    FirstWord(image, ELFDATA2MSB);
    FirstWord(image, ELFDATA2LSB);
  }

  predicate CoversImage(h: Shdr, stype: nat, image: seq<byte>) {
    h.stype == stype && h.offset == 0 && 0 < h.size == |image|
  }

  lemma WholeSymbols(image: seq<byte>, h: Shdr, encoding: nat, native: nat)
    requires CoversImage(h, SHT_SYMTAB, image)
    ensures GetData(image, h, 1, encoding, native)
            == Cooked(Contents(TSym, RecodeArray(image, Fields(TSym), encoding, native)))
  {
    assert image[0..|image|] == image;
  }

  lemma BytesAsTheyAre(image: seq<byte>, g: Shdr, encoding: nat, native: nat)
    requires CoversImage(g, SHT_STRTAB, image)
    ensures FromFile(image, g, encoding, native) == Cooked(image)
  {
    assert image[0..|image|] == image;
    BytesStay(image, encoding, native);
  }

  lemma BytesStay(b: seq<byte>, from: nat, to: nat)
    ensures ToMemory(TByte, b, from, to) == Cooked(b)
  {
  }

  lemma WholeStrings(image: seq<byte>, g: Shdr, encoding: nat, native: nat)
    requires CoversImage(g, SHT_STRTAB, image)
    ensures GetData(image, g, 2, encoding, native) == Cooked(Contents(TByte, image))
  {
    BytesAsTheyAre(image, g, encoding, native);
  }

  lemma AllTouched(image: seq<byte>, h: Shdr, t: ElfType, out: seq<byte>)
    requires h.offset == 0 && |out| == |image|
    ensures Touched(image, h, Cooked(Contents(t, out))) == out
  {
  }

  /** A string table in the place of the symbol table: on a host of the other encoding its strings are not those of
      the file, as the symbols have been translated under them. */
  lemma OverlapSpoilsStrings(image: seq<byte>, h: Shdr, g: Shdr)
    requires |image| == 16 && image[..4] == [1, 2, 3, 4]
    requires CoversImage(h, SHT_SYMTAB, image) && CoversImage(g, SHT_STRTAB, image)
    ensures GetData(image, g, 2, ELFDATA2MSB, ELFDATA2LSB) == Cooked(Contents(TByte, image))
    ensures var after := Touched(image, h, GetData(image, h, 1, ELFDATA2MSB, ELFDATA2LSB));
            GetData(after, g, 2, ELFDATA2MSB, ELFDATA2LSB) == Cooked(Contents(TByte, after)) && after != image
  {
    var out := SymbolChanges(image);
    WholeSymbols(image, h, ELFDATA2MSB, ELFDATA2LSB);
    WholeStrings(image, g, ELFDATA2MSB, ELFDATA2LSB);
    AllTouched(image, h, TSym, out);
    WholeStrings(out, g, ELFDATA2MSB, ELFDATA2LSB);
  }

  ghost predicate HasTables(image: seq<byte>, native: nat, syms: seq<Symbol>, strtab: seq<byte>) {
    CookFile(image).Cooked? && exists i :: TablesAt(image, CookFile(image).value, native, i, syms, strtab)
  }

  method FindTables(image: seq<byte>, hs: Headers, native: nat)
    returns (r: Option<(seq<Symbol>, seq<byte>)>, ghost i: nat)
    ensures r.Some? ==> TablesAt(image, hs, native, i, r.value.0, r.value.1)
    ensures r.None? ==> forall j, syms, strtab :: !TablesAt(image, hs, native, j, syms, strtab)
  {
    i := 0;
    var symtab := FindSymbolTable(hs.shdrs);
    if symtab.None? {
      return None, i;
    }
    var t := symtab.value;
    i := t;
    forall j | IsSymbolTable(hs.shdrs, j)
      ensures j == i
    {
      SymbolTableIsUnique(hs.shdrs, i, j);
    }
    var link, encoding := hs.shdrs[t].link, hs.ehdr.ident[EI_DATA];
    if link == 0 || link >= |hs.shdrs| || hs.shdrs[link].stype != SHT_STRTAB {
      return None, i;
    }
    var symdata := GetData(image, hs.shdrs[t], t, encoding, native);
    var strdata := GetData(Touched(image, hs.shdrs[t], symdata), hs.shdrs[link], link, encoding, native);
    if symdata.Spoiled? || strdata.Spoiled? || symdata.value.NoBytes? || strdata.value.NoBytes? {
      return None, i;
    }
    var syms := SymbolsOf(symdata.value.bytes, native);
    if syms == [] || strdata.value.bytes == [] {
      return None, i;
    }
    r := Some((syms, strdata.value.bytes));
  }

  /** Looks up the names before the first empty one. If the file has no usable tables, their values become zero. */
  method Nlist(image: seq<byte>, native: nat, nl: array<Wanted>)
    returns (ok: bool, ghost syms: seq<Symbol>, ghost strtab: seq<byte>)
    modifies nl
    ensures ok ==>
      && HasTables(image, native, syms, strtab) && NamesInside(Offsets(syms), strtab)
      && forall k {:trigger nl[k]} :: 0 <= k < nl.Length ==>
           nl[k] == if k < Names(old(nl[..])) then Found(syms, NamesOf(Offsets(syms), strtab), old(nl[k]))
               else old(nl[k])
    ensures !ok ==>
      && (forall ss, st :: HasTables(image, native, ss, st) ==> !NamesInside(Offsets(ss), st))
      && forall k {:trigger nl[k]} :: 0 <= k < nl.Length ==>
           nl[k] == if k < Names(old(nl[..])) then old(nl[k]).(value := 0) else old(nl[k])
  {
    ok, syms, strtab := false, [], [];
    var cooked := Cook(image);
    if cooked.Cooked? {
      var tables;
      ghost var i;
      tables, i := FindTables(image, cooked.value, native);
      if tables.Some? {
        syms, strtab := tables.value.0, tables.value.1;
        ok := LookupAll(tables.value.0, tables.value.1, nl);
        OnlyTables(image, cooked.value, native, i, syms, strtab);
      }
    }
    if !ok {
      ZeroValues(nl);
    }
  }

  lemma OnlyTables(image: seq<byte>, hs: Headers, native: nat, i: nat, syms: seq<Symbol>, strtab: seq<byte>)
    requires TablesAt(image, hs, native, i, syms, strtab)
    ensures forall j, ss, st :: TablesAt(image, hs, native, j, ss, st) ==> ss == syms && st == strtab
  {
    forall j, ss, st | TablesAt(image, hs, native, j, ss, st)
      ensures ss == syms && st == strtab
    {
      SymbolTableIsUnique(hs.shdrs, i, j);
    }
  }

  method ZeroValues(nl: array<Wanted>)
    modifies nl
    ensures forall k {:trigger nl[k]} :: 0 <= k < nl.Length ==>
      nl[k] == if k < Names(old(nl[..])) then old(nl[k]).(value := 0) else old(nl[k])
  {
    ghost var n := Names(nl[..]);
    var k := 0;
    while k < nl.Length && nl[k].name != []
      modifies nl
      invariant 0 <= k <= n
      invariant forall j {:trigger nl[j]} :: 0 <= j < nl.Length ==>
                nl[j] == if j < k then old(nl[j]).(value := 0) else old(nl[j])
    {
      assert nl[k] == old(nl[k]);
      nl[k] := nl[k].(value := 0);
      k := k + 1;
    }
    assert k == n;
  }
}
