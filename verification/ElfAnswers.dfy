/**
 What the lookup of names answers, in terms of the bytes of the file.
 */
module ElfAnswers {
  import opened Basics
  import opened ElfTypes
  import opened ElfCoding
  import opened ElfArrays
  import opened ElfReader
  import opened ElfReadable
  import opened ElfFormat
  import opened ElfSymbols

  // ----- Symbols -----

  lemma {:induction false} Sixteens(j: nat)
    ensures Times(j, 16) == 16 * j
  {
    if j > 0 {
      Sixteens(j - 1);
    }
  }

  /** Symbol `j` is made of the sixteen bytes from `16 * j` on, and there are as many as are whole. */
  lemma {:induction false} SymbolsInTurn(b: seq<byte>, native: nat, j: nat, at: nat)
    requires at == 16 * j
    ensures j < |SymbolsOf(b, native)| <==> at + 16 <= |b|
    ensures at + 16 <= |b| ==> SymbolsOf(b, native)[j] == SymbolAt(b[at..at + 16], native)
    decreases j
  {
    if j == 0 {
      assert |b| >= 16 ==> b[0..16] == b[..16];
    } else if |b| >= 16 {
      SymbolsInTurn(b[16..], native, j - 1, at - 16);
      if at + 16 <= |b| {
        assert b[16..] == b[16..|b|];
        SliceOfSlice(b, 16, |b|, at - 16, at);
      }
    }
  }

  lemma SymbolNumbers(c: seq<byte>, native: nat)
    requires |c| == 16
    ensures SymbolAt(c, native)
         == Symbol(NumberAt(c, 0, 4, native), NumberAt(c, 4, 4, native), NumberAt(c, 14, 2, native))
  {
    var ws := ElfTypes.Fields(TSym);
    SymSize();
    FirstOffs(ws);
    FieldNumber(c, ws, 0, 0, native);
    FieldNumber(c, ws, 1, 4, native);
    FieldNumber(c, ws, 5, 14, native);
  }

  lemma SymbolAmong(b: seq<byte>, native: nat, j: nat, at: nat)
    requires at == 16 * j && at + 16 <= |b|
    ensures j < |SymbolsOf(b, native)|
    ensures SymbolsOf(b, native)[j]
         == Symbol(NumberAt(b, at, 4, native), NumberAt(b, at + 4, 4, native), NumberAt(b, at + 14, 2, native))
  {
    SymbolsInTurn(b, native, j, at);
    SymbolNumbers(b[at..at + 16], native);
    NumberInside(b, at, at + 16, 0, 4, at, native);
    NumberInside(b, at, at + 16, 4, 4, at + 4, native);
    NumberInside(b, at, at + 16, 14, 2, at + 14, native);
  }

  lemma NumberOfSymbol(image: seq<byte>, h: Shdr, i: nat, encoding: nat, native: nat, bytes: seq<byte>, j: nat,
                       off: nat, width: nat, at: nat, place: nat)
    requires h.stype in {SHT_SYMTAB, SHT_DYNSYM} && ((width == 4 && off in {0, 4}) || (width == 2 && off == 14))
    requires GetData(image, h, i, encoding, native) == Cooked(Contents(TSym, bytes)) && 16 * j + 16 <= |bytes|
    requires at == 16 * j + off && place == h.offset + at
    ensures NumberAt(bytes, at, width, native) == NumberAt(image, place, width, encoding)
  {
    Sixteens(j);
    Sixteens(j + 1);
    HasSymbolNumber(h.stype, off, width);
    SectionNumber(image, h, i, encoding, native, TSym, bytes, j, 16, off, width, at);
  }

  lemma HasSymbolNumber(stype: Word, off: nat, width: nat)
    requires stype in {SHT_SYMTAB, SHT_DYNSYM} && ((width == 4 && off in {0, 4}) || (width == 2 && off == 14))
    ensures HasNumber(stype, 16, off, width)
  {
  }

  /** Name, value and section of symbol `j` are the same numbers in the bytes that were read and in the file. */
  ghost predicate Kept(bytes: seq<byte>, native: nat, image: seq<byte>, start: nat, e: nat, j: nat) {
    var at, p := 16 * j, start + 16 * j;
    && NumberAt(bytes, at, 4, native) == NumberAt(image, p, 4, e)
    && NumberAt(bytes, at + 4, 4, native) == NumberAt(image, p + 4, 4, e)
    && NumberAt(bytes, at + 14, 2, native) == NumberAt(image, p + 14, 2, e)
  }

  ghost predicate AllKept(bytes: seq<byte>, native: nat, image: seq<byte>, start: nat, e: nat) {
    forall j: nat :: 16 * j + 16 <= |bytes| ==> Kept(bytes, native, image, start, e, j)
  }

  lemma SymbolsKept(image: seq<byte>, h: Shdr, i: nat, e: nat, native: nat, bytes: seq<byte>)
    requires h.stype in {SHT_SYMTAB, SHT_DYNSYM}
    requires GetData(image, h, i, e, native) == Cooked(Contents(TSym, bytes))
    ensures AllKept(bytes, native, image, h.offset, e)
  {
    forall j: nat | 16 * j + 16 <= |bytes|
      ensures Kept(bytes, native, image, h.offset, e, j)
    {
      var at, p := 16 * j, h.offset + 16 * j;
      NumberOfSymbol(image, h, i, e, native, bytes, j, 0, 4, at, p);
      NumberOfSymbol(image, h, i, e, native, bytes, j, 4, 4, at + 4, p + 4);
      NumberOfSymbol(image, h, i, e, native, bytes, j, 14, 2, at + 14, p + 14);
    }
  }

  /** A symbol that was read has its name, value and section at these places in the file, in the file's byte order. */
  lemma SymbolInFile(bytes: seq<byte>, native: nat, image: seq<byte>, start: nat, e: nat, j: nat, p: nat)
    requires AllKept(bytes, native, image, start, e) && j < |SymbolsOf(bytes, native)| && p == start + 16 * j
    ensures SymbolsOf(bytes, native)[j]
         == Symbol(NumberAt(image, p, 4, e), NumberAt(image, p + 4, 4, e), NumberAt(image, p + 14, 2, e))
  {
    SymbolsInTurn(bytes, native, j, 16 * j);
    SymbolAmong(bytes, native, j, 16 * j);
    assert Kept(bytes, native, image, start, e, j);
  }

  lemma CountOf(b: seq<byte>, native: nat, n: nat)
    requires n == |SymbolsOf(b, native)|
    ensures 16 * n <= |b| < 16 * n + 16
  {
    SymbolsInTurn(b, native, n, 16 * n);
    if n > 0 {
      SymbolsInTurn(b, native, n - 1, 16 * (n - 1));
    }
  }

  lemma WholeSymbols(image: seq<byte>, h: Shdr, i: nat, encoding: nat, native: nat, bytes: seq<byte>)
    requires h.stype in {SHT_SYMTAB, SHT_DYNSYM}
    requires GetData(image, h, i, encoding, native) == Cooked(Contents(TSym, bytes))
    ensures |bytes| % 16 == 0 && |bytes| <= h.size < |bytes| + 16 && h.offset + h.size <= |image|
  {
    var end := h.offset + h.size;
    SymSize();
    var b := if end <= |image| then image[h.offset..end] else [];
    BytesRecoded(image, h, i, encoding, native, TSym, bytes, end, ElfTypes.Fields(TSym), b);
    WholeSixteens(h.size, |bytes|);
  }

  lemma WholeSixteens(size: nat, len: nat)
    requires len == Whole(size, 16)
    ensures len % 16 == 0
  {
  }

  /** How many symbols there are. */
  lemma SymbolCount(image: seq<byte>, h: Shdr, i: nat, encoding: nat, native: nat, bytes: seq<byte>, n: nat)
    requires h.stype in {SHT_SYMTAB, SHT_DYNSYM}
    requires GetData(image, h, i, encoding, native) == Cooked(Contents(TSym, bytes))
    requires n == |SymbolsOf(bytes, native)|
    ensures 16 * n <= h.size < 16 * n + 16 && h.offset + h.size <= |image|
  {
    WholeSymbols(image, h, i, encoding, native, bytes);
    CountOf(bytes, native, n);
    SixteenTimes(|bytes|, n);
  }

  lemma SixteenTimes(len: nat, n: nat)
    requires len % 16 == 0 && 16 * n <= len < 16 * n + 16
    ensures len == 16 * n
  {
  }

  // ----- Names -----

  /** The string at `off` is `name`: its bytes, and then a zero byte or the end. */
  predicate Spelled(strtab: seq<byte>, off: nat, name: seq<byte>) {
    && off + |name| <= |strtab| && strtab[off..off + |name|] == name
    && (off + |name| < |strtab| ==> strtab[off + |name|] == 0)
  }

  lemma {:induction false} NameSpelled(strtab: seq<byte>, off: nat, name: CString)
    requires off <= |strtab|
    ensures NameAt(strtab, off) == name <==> Spelled(strtab, off, name)
    decreases |strtab| - off
  {
    if off == |strtab| {
    } else if strtab[off] == 0 || name == [] {
      if name != [] {
        NextSpelled(strtab, off, name);
      }
    } else {
      NameSpelled(strtab, off + 1, name[1..]);
      NextSpelled(strtab, off, name);
      assert name == [name[0]] + name[1..];
    }
  }

  lemma NextSpelled(strtab: seq<byte>, off: nat, name: seq<byte>)
    requires name != [] && off < |strtab|
    ensures Spelled(strtab, off, name) <==> strtab[off] == name[0] && Spelled(strtab, off + 1, name[1..])
  {
    if off + |name| <= |strtab| {
      var a := strtab[off..off + |name|];
      assert a[0] == strtab[off] && a[1..] == strtab[off + 1..off + |name|];
      assert a == [a[0]] + a[1..] && name == [name[0]] + name[1..];
    }
  }

  // ----- Answers -----

  /** Symbol `j` of the table at `start` has the name. */
  predicate Named(image: seq<byte>, start: nat, e: nat, strtab: seq<byte>, j: nat, name: seq<byte>) {
    Spelled(strtab, NumberAt(image, start + 16 * j, 4, e), name)
  }

  /** The answer has the value and the section of the symbol at `p`. */
  predicate Answers(image: seq<byte>, p: nat, e: nat, name: CString, r: Wanted) {
    r == Wanted(name, NumberAt(image, p + 4, 4, e), NumberAt(image, p + 14, 2, e), 0, 0, 0)
  }

  /** Of the `n` symbols from `start` on, `j` is the last with the name, and answered; there is none if `j` is zero. */
  ghost predicate Answered(image: seq<byte>, start: nat, e: nat, n: nat, strtab: seq<byte>, name: CString, r: Wanted,
                           j: nat) {
    && j < n && (forall k :: j < k < n ==> !Named(image, start, e, strtab, k, name))
    && if j == 0 then r == Wanted(name, 0, 0, 0, 0, 0)
       else Named(image, start, e, strtab, j, name) && Answers(image, start + 16 * j, e, name, r)
  }

  /** The answer for a name is the value and the section, as the file has them, of the last symbol with that name,
      or zeros just if there is none. `j` is that symbol, or zero. */
  lemma AnswerInFile(image: seq<byte>, native: nat, hs: Headers, i: nat, syms: seq<Symbol>, strtab: seq<byte>,
                     w: Wanted, r: Wanted, h: Shdr, e: nat)
    returns (j: nat)
    requires TablesAt(image, hs, native, i, syms, strtab)
    requires NamesInside(Offsets(syms), strtab) && w.name != []
    requires r == Found(syms, NamesOf(Offsets(syms), strtab), w) && h == hs.shdrs[i] && e == hs.ehdr.ident[EI_DATA]
    ensures 16 * |syms| <= h.size < 16 * |syms| + 16 && h.offset + h.size <= |image|
    ensures Answered(image, h.offset, e, |syms|, strtab, w.name, r, j)
  {
    TableSymbols(image, native, hs, i, syms, strtab, h, e);
    j := AnswerAmong(image, h.offset, e, syms, strtab, w, r);
  }

  /** The symbols are those that the bytes of the file from `start` on say. */
  ghost predicate SymbolsFrom(image: seq<byte>, start: nat, e: nat, syms: seq<Symbol>) {
    forall k {:trigger syms[k]} :: 0 <= k < |syms| ==>
      syms[k] == Symbol(NumberAt(image, start + 16 * k, 4, e), NumberAt(image, start + 16 * k + 4, 4, e),
                        NumberAt(image, start + 16 * k + 14, 2, e))
  }

  lemma SymbolsInFile(bytes: seq<byte>, native: nat, image: seq<byte>, start: nat, e: nat, syms: seq<Symbol>)
    requires AllKept(bytes, native, image, start, e) && syms == SymbolsOf(bytes, native)
    ensures SymbolsFrom(image, start, e, syms)
  {
    forall k {:trigger syms[k]} | 0 <= k < |syms|
      ensures syms[k] == Symbol(NumberAt(image, start + 16 * k, 4, e), NumberAt(image, start + 16 * k + 4, 4, e),
                                NumberAt(image, start + 16 * k + 14, 2, e))
    {
      SymbolInFile(bytes, native, image, start, e, k, start + 16 * k);
    }
  }

  lemma NameInFile(image: seq<byte>, start: nat, e: nat, syms: seq<Symbol>, strtab: seq<byte>, name: CString, k: nat)
    requires SymbolsFrom(image, start, e, syms) && 0 < k < |syms| && NamesInside(Offsets(syms), strtab)
    ensures NamesOf(Offsets(syms), strtab)[k] == name <==> Named(image, start, e, strtab, k, name)
  {
    assert Offsets(syms)[k] == syms[k].name < |strtab|;
    NameSpelled(strtab, syms[k].name, name);
  }

  lemma AnswerAmong(image: seq<byte>, start: nat, e: nat, syms: seq<Symbol>, strtab: seq<byte>, w: Wanted, r: Wanted)
    returns (j: nat)
    requires SymbolsFrom(image, start, e, syms) && syms != [] && NamesInside(Offsets(syms), strtab)
    requires r == Found(syms, NamesOf(Offsets(syms), strtab), w)
    ensures Answered(image, start, e, |syms|, strtab, w.name, r, j)
  {
    var names := NamesOf(Offsets(syms), strtab);
    j := LastNamed(names, w.name, |names|);
    forall k | j < k < |syms|
      ensures !Named(image, start, e, strtab, k, w.name)
    {
      LastNamedIsLast(names, w.name, |names|, k);
      NameInFile(image, start, e, syms, strtab, w.name, k);
    }
    if j > 0 {
      NameInFile(image, start, e, syms, strtab, w.name, j);
    }
  }

  lemma TableSymbols(image: seq<byte>, native: nat, hs: Headers, i: nat, syms: seq<Symbol>, strtab: seq<byte>, h: Shdr,
                     e: nat)
    requires TablesAt(image, hs, native, i, syms, strtab) && h == hs.shdrs[i] && e == hs.ehdr.ident[EI_DATA]
    ensures 16 * |syms| <= h.size < 16 * |syms| + 16 && h.offset + h.size <= |image|
    ensures SymbolsFrom(image, h.offset, e, syms)
  {
    var bytes := GetData(image, h, i, e, native).value.bytes;
    SymbolData(image, h, i, e, native, bytes);
    SymbolCount(image, h, i, e, native, bytes, |syms|);
    SymbolsKept(image, h, i, e, native, bytes);
    SymbolsInFile(bytes, native, image, h.offset, e, syms);
  }

  lemma SymbolData(image: seq<byte>, h: Shdr, i: nat, e: nat, native: nat, bytes: seq<byte>)
    requires h.stype in {SHT_SYMTAB, SHT_DYNSYM}
    requires var c := GetData(image, h, i, e, native); c.Cooked? && c.value.Contents? && bytes == c.value.bytes
    ensures GetData(image, h, i, e, native) == Cooked(Contents(TSym, bytes))
  {
  }

  // ----- Which files have tables -----

  /** Section `i` is the first symbol table, or else the last dynamic one. */
  predicate ChosenTable(shdrs: seq<Shdr>, i: nat) {
    && i < |shdrs|
    && if shdrs[i].stype == 2 then forall j :: 0 <= j < i ==> shdrs[j].stype != 2
       else shdrs[i].stype == 11 && (forall j :: 0 <= j < |shdrs| ==> shdrs[j].stype != 2)
            && forall j :: i < j < |shdrs| ==> shdrs[j].stype != 11
  }

  predicate InsideFile(h: Shdr, image: seq<byte>) {
    h.offset + h.size <= |image|
  }

  /** It has a symbol and is linked to strings, and both are in the file. */
  predicate UsableTables(image: seq<byte>, shdrs: seq<Shdr>, i: nat) {
    && ChosenTable(shdrs, i) && i > 0 && 0 < shdrs[i].link < |shdrs|
    && shdrs[i].size >= 16 && InsideFile(shdrs[i], image)
    && var g := shdrs[shdrs[i].link]; g.stype == 3 && g.size > 0 && InsideFile(g, image)
  }

  lemma SymbolsReadExactly(image: seq<byte>, h: Shdr, i: nat, e: nat, native: nat, c: Cooked<Contents>)
    requires h.stype in {2, 11} && c == GetData(image, h, i, e, native)
    ensures c.Cooked? && c.value.Contents? && SymbolsOf(c.value.bytes, native) != [] <==>
            i > 0 && h.size >= 16 && InsideFile(h, image)
  {
    NoDataExactly(image, h, i, e, native, c);
    if i > 0 && h.size > 0 {
      DataExactly(image, h, i, e, native, c, h.offset + h.size);
    }
  }

  lemma StringsReadExactly(image: seq<byte>, h: Shdr, i: nat, e: nat, native: nat, c: Cooked<Contents>)
    requires h.stype == 3 && i > 0 && c == GetData(image, h, i, e, native)
    ensures c.Cooked? && c.value.Contents? && c.value.bytes != [] <==> h.size > 0 && InsideFile(h, image)
  {
    NoDataExactly(image, h, i, e, native, c);
    if h.size > 0 {
      DataExactly(image, h, i, e, native, c, h.offset + h.size);
    }
  }

  /** A file has tables to look names up in just if its chosen symbol table is usable. */
  lemma TablesExactly(image: seq<byte>, hs: Headers, native: nat, i: nat)
    ensures (exists syms, strtab :: TablesAt(image, hs, native, i, syms, strtab)) <==> UsableTables(image, hs.shdrs, i)
  {
    if ChosenTable(hs.shdrs, i) && 0 < hs.shdrs[i].link < |hs.shdrs| && hs.shdrs[hs.shdrs[i].link].stype == 3 {
      var h, link, e := hs.shdrs[i], hs.shdrs[i].link, hs.ehdr.ident[EI_DATA];
      var symdata := GetData(image, h, i, e, native);
      var touched := Touched(image, h, symdata);
      var strdata := GetData(touched, hs.shdrs[link], link, e, native);
      SymbolsReadExactly(image, h, i, e, native, symdata);
      StringsReadExactly(touched, hs.shdrs[link], link, e, native, strdata);
      if UsableTables(image, hs.shdrs, i) {
        assert TablesAt(image, hs, native, i, SymbolsOf(symdata.value.bytes, native), strdata.value.bytes);
      }
    }
  }

  // ----- Names outside the string table -----

  /** Every symbol but the first has its name before `limit`. */
  ghost predicate NamesBefore(image: seq<byte>, start: nat, e: nat, n: nat, limit: nat) {
    forall k :: 1 <= k < n ==> NumberAt(image, start + 16 * k, 4, e) < limit
  }

  lemma OffsetsBefore(image: seq<byte>, start: nat, e: nat, syms: seq<Symbol>, strtab: seq<byte>, offs: seq<nat>)
    requires SymbolsFrom(image, start, e, syms) && offs == Offsets(syms)
    ensures NamesInside(offs, strtab) <==> NamesBefore(image, start, e, |syms|, |strtab|)
  {
    assert forall k {:trigger offs[k]} :: 0 <= k < |syms| ==> offs[k] == syms[k].name;
    forall k | 1 <= k < |syms|
      ensures offs[k] == NumberAt(image, start + 16 * k, 4, e)
    {
      assert syms[k].name == NumberAt(image, start + 16 * k, 4, e);
    }
    if NamesInside(offs, strtab) {
      forall k | 1 <= k < |syms|
        ensures NumberAt(image, start + 16 * k, 4, e) < |strtab|
      {
        assert offs[k] < |strtab|;
      }
    }
  }

  /** Lookups are refused just if a symbol other than the first has its name outside the string table. */
  lemma NamesInsideExactly(image: seq<byte>, native: nat, hs: Headers, i: nat, syms: seq<Symbol>, strtab: seq<byte>,
                           h: Shdr, e: nat)
    requires TablesAt(image, hs, native, i, syms, strtab) && h == hs.shdrs[i] && e == hs.ehdr.ident[EI_DATA]
    ensures NamesInside(Offsets(syms), strtab) <==> NamesBefore(image, h.offset, e, |syms|, |strtab|)
  {
    TableSymbols(image, native, hs, i, syms, strtab, h, e);
    OffsetsBefore(image, h.offset, e, syms, strtab, Offsets(syms));
  }
}
