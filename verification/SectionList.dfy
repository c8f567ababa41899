/**
 The list of section descriptors of an ELF file: a singly linked list with a tail pointer,
 each descriptor caching its own position, and a section count kept in the file header
 with an escape into the first section header.
 */
module SectionList {

  import opened Basics
  import opened ElfTypes

  datatype Error = NoError | NotElf | NoEhdr | BadHeaders | ElfScnMismatch | NullScn | NoSuchScn

  /** What reading the headers of the file will give: there is no file to read, or it cannot be read, or its count, its
      index of the section name table and its section headers. */
  datatype Unread = NoFile | BadFile | GoodFile(shnum: Half, shstrndx: Half, headers: seq<Shdr>)
  {
    predicate Sound() {
      GoodFile? && headers != [] ==> |headers| == DecodeCount(shnum, headers[0].size)
    }
  }

  // ----- Positions -----

  /** Element `i` taken out and put back right behind what was element `j`. */
  function MovedAfter<T>(s: seq<T>, i: nat, j: nat): (t: seq<T>)
    requires i < |s| && j < |s|
    ensures |t| == |s| && forall k :: 0 <= k < |t| ==> t[k] == s[CameFrom(i, j, k)]
  {
    if i == j then s
    else if j < i then s[..j + 1] + [s[i]] + s[j + 1..i] + s[i + 1..]
    else s[..i] + s[i + 1..j + 1] + [s[i]] + s[j + 1..]
  }

  function CameFrom(i: nat, j: nat, k: nat): nat {
    if j < i then (if k == j + 1 then i else if j + 1 < k <= i then k - 1 else k)
    else if k == j then i else if i <= k < j then k + 1 else k
  }

  function MovedTo(i: nat, j: nat): nat {
    if j < i then j + 1 else j
  }

  lemma MovedDown<T>(s: seq<T>, i: nat, j: nat, t: seq<T>, p: nat)
    requires 0 < i < |s| && j < i && p == j + 1 && t == MovedAfter(s, i, j)
    ensures |t| == |s| && t[p] == s[i] && t[p - 1] == s[j]
    ensures MovedAfter(t, p, if p < i then i else i - 1) == s
  {
    assert t == s[..p] + [s[i]] + s[p..i] + s[i + 1..];
    if p < i {
      assert MovedAfter(t, p, i) == t[..p] + t[p + 1..i + 1] + [t[p]] + t[i + 1..];
      assert t[..p] == s[..p] && t[p + 1..i + 1] == s[p..i] && t[i + 1..] == s[i + 1..];
      assert s == s[..p] + s[p..i] + [s[i]] + s[i + 1..];
    } else {
      assert t == s;
      assert MovedAfter(t, p, i - 1) == t;
    }
  }

  lemma MovedUp<T>(s: seq<T>, i: nat, j: nat, t: seq<T>)
    requires 0 < i < j < |s| && t == MovedAfter(s, i, j)
    ensures |t| == |s| && t[j] == s[i] && t[j - 1] == s[j] && MovedAfter(t, j, i - 1) == s
  {
    assert MovedAfter(t, j, i - 1) == t[..i] + [t[j]] + t[i..j] + t[j + 1..];
    assert t[..i] == s[..i] && t[i..j] == s[i + 1..j + 1] && t[j + 1..] == s[j + 1..];
    assert s == s[..i] + [s[i]] + s[i + 1..j + 1] + s[j + 1..];
  }

  /** Moving back behind the old predecessor undoes the move, and a move neither
      loses nor copies nor reorders the other elements. */
  lemma MoveUndone<T>(s: seq<T>, i: nat, j: nat)
    requires 0 < i < |s| && j < |s|
    ensures var t, p := MovedAfter(s, i, j), MovedTo(i, j);
            && |t| == |s| && t[p] == s[i] && Without(t, p) == Without(s, i)
            && (i != j ==> p > 0 && t[p - 1] == s[j])
            && MovedAfter(t, p, if p < i then i else i - 1) == s
  {
    var t, p := MovedAfter(s, i, j), MovedTo(i, j);
    assert Without(t, p) == Without(s, i);
    if j < i {
      MovedDown(s, i, j, t, p);
    } else if i < j {
      MovedUp(s, i, j, t);
    } else {
      assert MovedAfter(s, i, i - 1) == s;
    }
  }

  function GoesTo(i: nat, j: nat, k: nat): nat {
    if k == i then MovedTo(i, j) else if j < k < i then k + 1 else if i < k <= j then k - 1 else k
  }

  /** What stays where it is when element `i` is moved behind element `j`: all but the range between them. */
  lemma StaysInPlace(i: nat, j: nat, k: nat)
    requires i > 0
    ensures CameFrom(i, j, GoesTo(i, j, k)) == k
    ensures CameFrom(i, j, k) == k <==> i == j || i == j + 1 || (if j < i then k <= j || k > i else k < i || k > j)
  {
  }

  lemma NothingToMove<T>(s: seq<T>, i: nat, j: nat)
    requires i < |s| && j < |s| && (i == j || i == j + 1)
    ensures MovedAfter(s, i, j) == s && MovedTo(i, j) == i
  {
    if i != j {
      assert s[j + 1..i] == [] && s == s[..j + 1] + [s[i]] + s[i + 1..];
    }
  }

  // ----- Counts and indices with an escape -----

  function DecodeCount(shnum: nat, size0: nat): nat {
    if shnum != 0 then shnum else size0
  }

  /** A count that is cut to 16 bits without the escape decodes right only if it fits. */
  lemma CutCount(n: nat, before: Half, size0: nat, shnum: Half)
    requires n > 0 && shnum == n % HALF
    ensures DecodeCount(before, size0) == n + 1 ==> (DecodeCount(shnum, size0) == n <==> n < HALF)
  {
  }

  function NewIndex(ndx: nat, index: nat): (r: nat)
    ensures r <= ndx
  {
    if ndx == index then SHN_UNDEF else if ndx > index then ndx - 1 else ndx
  }

  /** The reference `now` into `t` leads to what `was` led to in `s`; to the null section if that was
      section `gone`; and nowhere if `was` led nowhere. */
  ghost predicate SameTarget<T>(t: seq<T>, now: nat, s: seq<T>, was: nat, gone: nat) {
    if was == gone then now == SHN_UNDEF
    else if was < |s| then now < |t| && t[now] == s[was]
    else now >= |t|
  }

  predicate HasLink(stype: nat) {
    || stype == SHT_REL || stype == SHT_RELA || stype == SHT_DYNSYM || stype == SHT_DYNAMIC || stype == SHT_HASH
    || stype == SHT_SYMTAB || stype == SHT_SUNW_VERDEF || stype == SHT_SUNW_VERNEED || stype == SHT_SUNW_VERSYM
  }

  predicate HasInfo(stype: nat) {
    stype == SHT_REL || stype == SHT_RELA
  }

  function Renumbered(h: Shdr, index: nat): Shdr {
    h.(link := if HasLink(h.stype) then NewIndex(h.link, index) else h.link,
       info := if HasInfo(h.stype) then NewIndex(h.info, index) else h.info)
  }

  /** The references of a header follow their sections: the link of relocations, symbols, dynamic sections, hash tables
      and version sections, and the info of relocations. The rest of the header is as it was. */
  ghost predicate Redirected<T>(now: Shdr, t: seq<T>, was: Shdr, s: seq<T>, gone: nat) {
    && now == was.(link := now.link, info := now.info)
    && (if was.stype in {SHT_REL, SHT_RELA} then
          SameTarget(t, now.link, s, was.link, gone) && SameTarget(t, now.info, s, was.info, gone)
        else if was.stype in {SHT_SYMTAB, SHT_DYNSYM, SHT_DYNAMIC, SHT_HASH,
                              SHT_SUNW_VERDEF, SHT_SUNW_VERNEED, SHT_SUNW_VERSYM} then
          SameTarget(t, now.link, s, was.link, gone) && now.info == was.info
        else
          now == was)
  }

  lemma RenumberedIsRedirected<T>(s: seq<T>, gone: nat, was: Shdr)
    requires 0 < gone < |s|
    ensures Redirected(Renumbered(was, gone), Without(s, gone), was, s, gone)
  {
  }

  class Scn {
    var link: Scn?
    var elf: Elf?
    var index: nat
    var shdr: Shdr
    var scnDirty: bool
    var shdrDirty: bool

    constructor (elf: Elf?, index: nat)
      ensures this.elf == elf && this.index == index && link == null && shdr == ZERO_SHDR
      ensures scnDirty && shdrDirty
    {
      this.elf, this.index, link, shdr := elf, index, null, ZERO_SHDR;
      scnDirty, shdrDirty := true, true;
    }

    /** A section that was read. */
    constructor Cook(elf: Elf, index: nat, shdr: Shdr, link: Scn?)
      ensures this.elf == elf && this.index == index && this.link == link && this.shdr == shdr
      ensures !scnDirty && !shdrDirty
    {
      this.elf, this.index, this.link, this.shdr := elf, index, link, shdr;
      scnDirty, shdrDirty := false, false;
    }
  }

  /** The link of every element is the next one, the link of the last is null. */
  ghost predicate Chained(s: seq<Scn>)
    reads s
  {
    forall i {:trigger s[i].link} :: 0 <= i < |s| ==> s[i].link == Next(s, i)
  }

  lemma ConsLinked(head: Scn, s: seq<Scn>)
    requires Chained(s) && head.link == Next(s, -1)
    ensures Chained([head] + s)
  {
    var t := [head] + s;
    forall i {:trigger t[i].link} | 0 <= i < |t|
      ensures t[i].link == Next(t, i)
    {
      if i > 0 {
        assert t[i] == s[i - 1];
      }
    }
  }

  /** The descriptors of `elf`, in link order and with positions for indices. */
  ghost predicate Listed(s: seq<Scn>, elf: Elf)
    reads s
  {
    Chained(s) && forall i {:trigger s[i]} :: 0 <= i < |s| ==> s[i].index == i && s[i].elf == elf
  }

  ghost function Next(s: seq<Scn>, i: int): Scn?
    requires -1 <= i < |s|
  {
    if i + 1 == |s| then null else s[i + 1]
  }

  ghost predicate At(s: seq<Scn>, o: Scn, i: int) {
    forall m {:trigger s[m]} :: 0 <= m < |s| ==> (s[m] == o <==> m == i)
  }

  lemma OnlyAt(s: seq<Scn>, i: nat)
    requires i < |s| && forall m {:trigger s[m]} :: 0 <= m < |s| ==> s[m].index == m
    ensures At(s, s[i], i)
  {
  }

  /** Where the link of element `k` leads after the move. */
  ghost function RelinkedTo(s: seq<Scn>, i: nat, j: nat, k: nat): Scn?
    requires 0 < i < |s| && j < |s| && k < |s|
  {
    if k == i - 1 then Next(s, i) else if k == i then Next(s, j) else if k == j then s[i] else Next(s, k)
  }

  /** The moved sequence is chained again, and its cached indices are its positions. */
  lemma MovedInOrder(s: seq<Scn>, i: nat, j: nat, k: nat)
    requires 0 < i < |s| && j < |s| && i != j && i != j + 1 && k < |s|
    requires forall m {:trigger s[m].link} :: 0 <= m < |s| ==> s[m].link == RelinkedTo(s, i, j, m)
    requires forall m {:trigger s[m].index} :: 0 <= m < |s| ==>
             s[m].index == if m == i then MovedTo(i, j) else m + Shift(i, j, m)
    ensures var t := MovedAfter(s, i, j);
            t[k].link == Next(t, k) && t[k].index == k
  {
    var t, from := MovedAfter(s, i, j), CameFrom(i, j, k);
    assert t[k] == s[from];
    if k + 1 < |s| {
      assert t[k + 1] == s[CameFrom(i, j, k + 1)];
    }
  }

  lemma MovedListed(s: seq<Scn>, i: nat, j: nat, elf: Elf)
    requires 0 < i < |s| && j < |s| && i != j && i != j + 1
    requires forall m {:trigger s[m].link} :: 0 <= m < |s| ==> s[m].link == RelinkedTo(s, i, j, m)
    requires forall m {:trigger s[m].index} :: 0 <= m < |s| ==>
             s[m].index == if m == i then MovedTo(i, j) else m + Shift(i, j, m)
    requires forall m {:trigger s[m].elf} :: 0 <= m < |s| ==> s[m].elf == elf
    ensures var t, n := MovedAfter(s, i, j), |s| - 1;
            Listed(t, elf) && t[0] == s[0] && t[n] == if i == n then s[i - 1] else if j == n then s[i] else s[n]
  {
    var t := MovedAfter(s, i, j);
    forall k {:trigger t[k]} | 0 <= k < |t|
      ensures t[k].link == Next(t, k) && t[k].index == k && t[k].elf == elf
    {
      MovedInOrder(s, i, j, k);
      assert t[k] == s[CameFrom(i, j, k)];
    }
  }

  /** After a move an index leads to the same section as before just if that section stayed in place. */
  lemma MovedIndices(s: seq<Scn>, t: seq<Scn>, i: nat, j: nat, elf: Elf)
    requires 0 < i < |s| && j < |s| && t == MovedAfter(s, i, j) && Listed(t, elf)
    ensures forall k {:trigger t[k]} :: 0 <= k < |t| ==> (t[k] == s[k] <==> CameFrom(i, j, k) == k)
  {
    forall k {:trigger t[k]} | 0 <= k < |t|
      ensures t[k] == s[k] <==> CameFrom(i, j, k) == k
    {
      var p := GoesTo(i, j, k);
      StaysInPlace(i, j, k);
      assert t[p] == s[k];
    }
  }

  /** After a removal just the indices before the removed section lead to the same section as before. */
  lemma RemainingIndices(s: seq<Scn>, t: seq<Scn>, index: nat, elf: Elf)
    requires 0 < index < |s| && t == Without(s, index) && Listed(t, elf) && At(s, s[index], index)
    ensures forall k {:trigger t[k]} :: 0 <= k < |t| ==> (t[k] == s[k] <==> k < index)
  {
    forall k {:trigger t[k]} | 0 <= k < |t|
      ensures t[k] == s[k] <==> k < index
    {
      if k > index {
        assert t[k - 1] == s[k];
      }
    }
  }

  lemma AppendedListed(s: seq<Scn>, scn: Scn, elf: Elf)
    requires s != [] && scn.link == null && scn.index == |s| && scn.elf == elf
    requires forall m {:trigger s[m].link} :: 0 <= m < |s| ==> s[m].link == if m == |s| - 1 then scn else Next(s, m)
    requires forall m {:trigger s[m]} :: 0 <= m < |s| ==> s[m].index == m && s[m].elf == elf
    ensures var t := s + [scn]; Listed(t, elf) && t[0] == s[0] && t[|t| - 1] == scn
  {
    var t := s + [scn];
    forall k {:trigger t[k]} | 0 <= k < |t|
      ensures t[k].link == Next(t, k) && t[k].index == k && t[k].elf == elf
    {
      if k < |s| {
        assert t[k] == s[k];
      }
    }
  }

  lemma WithoutListed(s: seq<Scn>, index: nat, elf: Elf)
    requires 0 < index < |s|
    requires forall m {:trigger s[m].link} :: 0 <= m < |s| ==> s[m].link == Next(s, if m == index - 1 then index else m)
    requires forall m {:trigger s[m].index} :: 0 <= m < |s| ==> s[m].index == if index < m then m - 1 else m
    requires forall m {:trigger s[m].elf} :: 0 <= m < |s| ==> s[m].elf == elf
    ensures var t, n := Without(s, index), |s| - 1;
            Listed(t, elf) && t[0] == s[0] && t[n - 1] == if index == n then s[index - 1] else s[n]
  {
    var t := Without(s, index);
    forall k {:trigger t[k]} | 0 <= k < |t|
      ensures t[k].link == Next(t, k) && t[k].index == k && t[k].elf == elf
    {
      var from := if k < index then k else k + 1;
      assert t[k] == s[from];
      if k + 1 < |t| {
        assert t[k + 1] == s[if k + 1 < index then k + 1 else k + 2];
      }
    }
  }

  ghost function Shift(i: nat, j: nat, k: nat): int {
    (if j < k then 1 else 0) - (if i < k then 1 else 0)
  }

  /** A descriptor. Headers that are not there yet are read when they are needed. */
  class Elf {
    const file: Unread
    var isElf: bool
    var hasEhdr: bool
    var scn1: Scn?
    var scnN: Scn?
    var shnum: Half
    var shstrndx: Half
    var ehdrDirty: bool
    ghost var scns: seq<Scn>

    /** The links run through `scns` in order, the cached indices are the positions,
        and the tail pointer is the last one. */
    ghost predicate Valid()
      reads this, scns
    {
      && Listed(scns, this)
      && (scns == [] ==> scn1 == null && scnN == null)
      && (scns != [] ==> scn1 == scns[0] && scnN == scns[|scns| - 1])
      && (!hasEhdr ==> scns == []) && file.Sound()
    }

    /** Header and first section header together encode the length of the list. */
    ghost predicate Counted()
      reads this, scns
    {
      DecodeCount(shnum, if scns == [] then 0 else scns[0].shdr.size) == |scns|
    }

    /** A file that is made anew. */
    constructor ()
      ensures Valid() && Counted() && scns == [] && isElf && hasEhdr && file == NoFile
    {
      file, isElf, hasEhdr, scn1, scnN, shnum, shstrndx, ehdrDirty := NoFile, true, true, null, null, 0, 0, true;
      scns := [];
    }

    /** A file whose headers have not been read. */
    constructor Begin(isElf: bool, file: Unread)
      requires file.Sound()
      ensures Valid() && scns == [] && !hasEhdr && this.isElf == isElf && this.file == file
    {
      this.file, this.isElf, hasEhdr, ehdrDirty := file, isElf, false, false;
      scn1, scnN, shnum, shstrndx, scns := null, null, 0, 0, [];
    }

    /** The headers are those of the file. */
    ghost predicate AsRead()
      reads this, scns
    {
      && file.GoodFile? && hasEhdr && shnum == file.shnum && shstrndx == file.shstrndx
      && |scns| == |file.headers| && (file.headers != [] || shnum == 0 ==> Counted())
      && forall i {:trigger scns[i]} :: 0 <= i < |scns| ==> scns[i].shdr == file.headers[i]
    }

    /** Header `i` of a list whose count was stored anew. */
    ghost function SizedAnew(h: Shdr, i: nat, size: Word): Shdr {
      if i == 0 then h.(size := size) else h
    }

    /** The sections of the file, but for the link of the first header. */
    ghost predicate LinkedOver(headers: seq<Shdr>, fewest: nat)
      reads this, scns
    {
      && |scns| == (if headers == [] then fewest else |headers|)
      && forall i {:trigger scns[i]} :: 0 <= i < |headers| ==>
           scns[i].shdr == if i == 0 then headers[i].(link := scns[i].shdr.link) else headers[i]
    }

    /** Sees to it that the headers are there, by reading them if need be. */
    method NeedHeaders() returns (ok: bool)
      requires Valid()
      modifies this`hasEhdr, this`scn1, this`scnN, this`scns, this`shnum, this`shstrndx
      ensures Valid() && ok == hasEhdr == (old(hasEhdr) || file.GoodFile?)
      ensures old(hasEhdr) || !ok ==> scns == old(scns) && shnum == old(shnum) && shstrndx == old(shstrndx)
      ensures forall i {:trigger scns[i]} :: 0 <= i < |scns| ==> scns[i] in old(scns) || fresh(scns[i])
      ensures ok && !old(hasEhdr) ==> AsRead()
    {
      if !hasEhdr && file.GoodFile? {
        hasEhdr, shnum, shstrndx := true, file.shnum, file.shstrndx;
        if file.headers != [] {
          LinkSections(file.headers);
          assert scns[0].shdr == file.headers[0];
        }
      }
      ok := hasEhdr;
    }

    /** Makes the descriptors from the last one to the first, each linked to the one made before. */
    method LinkSections(headers: seq<Shdr>)
      requires headers != [] && hasEhdr && file.Sound()
      modifies this`scn1, this`scnN, this`scns
      ensures Valid() && |scns| == |headers| && forall i :: 0 <= i < |scns| ==> scns[i].shdr == headers[i]
      ensures forall i {:trigger scns[i]} :: 0 <= i < |scns| ==> fresh(scns[i])
    {
      var scn: Scn? := null;
      scns := [];
      var i := |headers|;
      ghost var rest: seq<Shdr> := [];
      while i > 0
        modifies this`scnN, this`scns
        invariant 0 <= i <= |headers| && |scns| == |headers| - i
        invariant scn == Next(scns, -1) && (scns != [] ==> scnN == scns[|scns| - 1])
        invariant Chained(scns)
        invariant forall k {:trigger scns[k]} :: 0 <= k < |scns| ==>
                    fresh(scns[k]) && scns[k].index == i + k && scns[k].elf == this
        invariant rest == headers[i..] && forall k {:trigger scns[k]} :: 0 <= k < |scns| ==> scns[k].shdr == rest[k]
      {
        i := i - 1;
        var head := new Scn.Cook(this, i, headers[i], scn);
        if scn == null {
          scnN := head;
        }
        scn := head;
        ConsLinked(head, scns);
        scns, rest := [head] + scns, [headers[i]] + rest;
      }
      assert rest == headers;
      scn1 := scn;
      assert Listed(scns, this);
    }

    // ----- Adding -----

    method UpdateShnum(count: nat)
      requires Valid() && scns != []
      modifies this`shnum, this`ehdrDirty, scn1`shdr, scn1`shdrDirty
      ensures Valid() && ehdrDirty && scn1.shdrDirty
      ensures scn1.shdr == old(scn1.shdr).(size := scn1.shdr.size)
      ensures DecodeCount(shnum, scn1.shdr.size) == count <==> count < WORD
      ensures shnum == if count < 0xff00 then count else 0
      ensures scn1.shdr.size == if count < 0xff00 then 0 else count % 0x1_0000_0000
    {
      var extshnum: nat, n: nat := 0, count;
      if n >= SHN_LORESERVE {
        extshnum, n := n, 0;
      }
      shnum := n;
      scn1.shdr := scn1.shdr.(size := ToWord(extshnum));
      ehdrDirty, scn1.shdrDirty := true, true;
    }

    /** The first section, made if there is none: it is the null section. */
    method FirstScn() returns (scn: Scn)
      requires Valid() && hasEhdr
      modifies this`scn1, this`scnN, this`scns, this`shnum, this`ehdrDirty
      ensures Valid() && scn == scn1 && scns != []
      ensures old(scns) != [] ==> scns == old(scns) && shnum == old(shnum) && scnN == old(scnN)
      ensures old(scns) == [] ==> fresh(scn) && scns == [scn] && Counted() && scn.shdr == ZERO_SHDR
      ensures old(scns) == [] ==> scn.scnDirty && ehdrDirty
    {
      if scn1 != null {
        return scn1;
      }
      scn := new Scn(this, 0);
      scn1, scnN, scns := scn, scn, [scn];
      UpdateShnum(1);
    }

    /** Appends a section; the list starts with the null section. */
    method BuildScn() returns (scn: Scn)
      requires Valid() && hasEhdr
      modifies this`scn1, this`scnN, this`scns, this`shnum, this`ehdrDirty, scns`link, scns`shdr, scns`shdrDirty
      ensures Valid() && fresh(scn) && |scns| == (if old(scns) == [] then 2 else |old(scns)| + 1)
      ensures old(scns) <= scns && scns[|scns| - 1] == scn && (Counted() <==> |scns| < WORD)
      ensures scn.shdr == ZERO_SHDR && scn.scnDirty && scn.shdrDirty && ehdrDirty && scns[0].shdrDirty
      ensures forall s :: s in old(scns) ==>
                s.shdr == if s == scn1 then old(s.shdr).(size := s.shdr.size) else old(s.shdr)
    {
      var first := FirstScn();
      scn := new Scn(this, scnN.index + 1);
      UpdateShnum(scn.index + 1);
      LinkLast(scn);
    }

    method LinkLast(scn: Scn)
      requires Valid() && scns != [] && scn !in scns && scn.link == null && scn.index == |scns| && scn.elf == this
      modifies this`scnN, this`scns, scns`link
      ensures Valid() && scns == old(scns) + [scn]
    {
      scnN.link := scn;
      scnN := scn;
      AppendedListed(scns, scn, this);
      scns := scns + [scn];
    }

    method NewScn() returns (scn: Scn?, error: Error)
      requires Valid()
      modifies this`hasEhdr, this`scn1, this`scnN, this`scns, this`shnum, this`shstrndx, this`ehdrDirty
      modifies scns`link, scns`shdr, scns`shdrDirty
      ensures Valid()
      ensures error == if file.NoFile? && !old(hasEhdr) then NoEhdr else if !old(isElf) then NotElf
                       else if !old(hasEhdr) && file.BadFile? then BadHeaders else NoError
      ensures scn == null <==> error != NoError
      ensures scn == null ==> scns == old(scns) && shnum == old(shnum) && (old(Counted()) ==> Counted())
      ensures scn != null ==>
        var before := if old(hasEhdr) then |old(scns)| else |file.headers|;
        && fresh(scn) && |scns| == (if before == 0 then 2 else before + 1) && scns[|scns| - 1] == scn
        && (Counted() <==> |scns| < WORD) && scn.shdr == ZERO_SHDR && scn.scnDirty && ehdrDirty
        && if old(hasEhdr) then old(scns) <= scns
           else forall i :: 0 <= i < before ==> scns[i].shdr == SizedAnew(file.headers[i], i, scns[i].shdr.size)
      ensures forall s :: s in old(scns) ==>
                s.shdr == if s == scn1 then old(s.shdr).(size := s.shdr.size) else old(s.shdr)
    {
      if file.NoFile? && !hasEhdr {
        return null, NoEhdr;
      }
      if !isElf {
        return null, NotElf;
      }
      var ok := NeedHeaders();
      if !ok {
        return null, BadHeaders;
      }
      label Read:
      ghost var was := scns;
      scn := BuildScn();
      assert was <= scns && forall s :: s in was ==>
        s.shdr == if s == scn1 then old@Read(s.shdr).(size := s.shdr.size) else old@Read(s.shdr);
      error := NoError;
    }

    // ----- Looking up -----

    method GetScn(index: nat) returns (scn: Scn?, error: Error)
      requires Valid()
      modifies this`hasEhdr, this`scn1, this`scnN, this`scns, this`shnum, this`shstrndx
      ensures Valid() && (old(hasEhdr) || !hasEhdr ==> scns == old(scns)) && (hasEhdr && !old(hasEhdr) ==> AsRead())
      ensures error == if !isElf then NotElf else if !old(hasEhdr) && !file.GoodFile? then BadHeaders
                       else if index < |scns| then NoError else NoSuchScn
      ensures scn == if error == NoError then scns[index] else null
    {
      if !isElf {
        return null, NotElf;
      }
      var ok := NeedHeaders();
      if !ok {
        return null, BadHeaders;
      }
      scn := scn1;
      ghost var k := 0;
      while scn != null
        invariant k <= |scns| && k <= index
        invariant scn == (if k == |scns| then null else scns[k])
        decreases |scns| - k
      {
        if scn.index == index {
          return scn, NoError;
        }
        scn := scn.link;
        k := k + 1;
      }
      error := NoSuchScn;
    }

    method GetShdrnum() returns (num: nat, error: Error)
      requires Valid()
      modifies this`hasEhdr, this`scn1, this`scnN, this`scns, this`shnum, this`shstrndx
      ensures Valid() && (old(hasEhdr) || !hasEhdr ==> scns == old(scns)) && (hasEhdr && !old(hasEhdr) ==> AsRead())
      ensures error == if !isElf then NotElf else if !old(hasEhdr) && !file.GoodFile? then BadHeaders else NoError
      ensures num == if error == NoError then |scns| else 0
    {
      num := 0;
      if !isElf {
        return 0, NotElf;
      }
      var ok := NeedHeaders();
      if !ok {
        return 0, BadHeaders;
      }
      error := NoError;
      if scnN != null {
        num := scnN.index + 1;
      }
    }

    method GetShdrstrndx() returns (num: nat, error: Error)
      requires Valid()
      modifies this`hasEhdr, this`scn1, this`scnN, this`scns, this`shnum, this`shstrndx
      ensures Valid() && (old(hasEhdr) || !hasEhdr ==> scns == old(scns)) && (hasEhdr && !old(hasEhdr) ==> AsRead())
      ensures error == if !isElf then NotElf else if !old(hasEhdr) && !file.GoodFile? then BadHeaders
                       else if shstrndx == SHN_XINDEX && scns == [] then NoSuchScn else NoError
      ensures error == NoError ==> num == if shstrndx == 0xffff && scns != [] then scns[0].shdr.link else shstrndx
    {
      if !isElf {
        return 0, NotElf;
      }
      var ok := NeedHeaders();
      if !ok {
        return 0, BadHeaders;
      }
      error := NoError;
      num := shstrndx;
      if num != SHN_XINDEX {
        return;
      }
      if scn1 == null {
        return 0, NoSuchScn;
      }
      num := scn1.shdr.link;
    }

    /** Whatever index is stored, reading it back gives the same index. */
    method UpdateShstrndx(value: nat) returns (ok: bool)
      requires Valid()
      modifies this`hasEhdr, this`scn1, this`scnN, this`scns, this`shnum, this`shstrndx, this`ehdrDirty
      modifies scns`shdr, scns`shdrDirty
      ensures Valid() && ok == (old(isElf) && (old(hasEhdr) || file.GoodFile?))
      ensures !ok ==> shstrndx == old(shstrndx) && scns == old(scns)
      ensures ok ==> scns != [] && shstrndx == if value < 0xff00 then value else 0xffff
      ensures ok ==> scns[0].shdr.link == if value < 0xff00 then 0 else value % 0x1_0000_0000
      ensures ok ==> ((if shstrndx == 0xffff then scns[0].shdr.link else shstrndx) == value <==> value < WORD)
      ensures ok && old(hasEhdr) ==> old(scns) <= scns && (old(Counted()) ==> Counted())
      ensures ok && !old(hasEhdr) ==> LinkedOver(file.headers, 1) && Counted()
      ensures forall s :: s in old(scns) ==>
                s.shdr == if s == scn1 then old(s.shdr).(link := s.shdr.link) else old(s.shdr)
    {
      if !isElf {
        return false;
      }
      ok := NeedHeaders();
      if ok {
        StoreShstrndx(value);
      }
    }

    /** Puts the index into the header, or into the link of the first section if it is too large for the header. */
    method StoreShstrndx(value: nat)
      requires Valid() && hasEhdr
      modifies this`scn1, this`scnN, this`scns, this`shnum, this`shstrndx, this`ehdrDirty, scns`shdr, scns`shdrDirty
      ensures Valid() && scns != [] && old(scns) <= scns && (old(Counted()) || old(scns) == [] ==> Counted())
      ensures |scns| == if old(scns) == [] then 1 else |old(scns)|
      ensures (if shstrndx == 0xffff then scns[0].shdr.link else shstrndx) == value <==> value < WORD
      ensures shstrndx == if value < 0xff00 then value else 0xffff
      ensures scns[0].shdr.link == if value < 0xff00 then 0 else value % 0x1_0000_0000
      ensures forall s :: s in old(scns) ==>
                s.shdr == if s == scn1 then old(s.shdr).(link := s.shdr.link) else old(s.shdr)
    {
      var extvalue: nat, v: nat := 0, value;
      if v >= SHN_LORESERVE {
        extvalue, v := v, SHN_XINDEX;
      }
      var scn := FirstScn();
      shstrndx := v;
      scn.shdr := scn.shdr.(link := ToWord(extvalue));
      ehdrDirty, scn.shdrDirty := true, true;
    }

    // ----- Moving -----

    /** Puts a section directly behind another one. */
    method MovScn(scn: Scn?, after: Scn?) returns (r: nat, error: Error)
      requires Valid()
      requires scn != null && scn.elf == this ==> scn in scns
      requires after != null && after.elf == this ==> after in scns
      modifies this`scns, this`scnN, scns`index, scns`link
      ensures Valid() && (old(Counted()) ==> Counted())
      ensures error == if scn == null || after == null then NoError
                       else if !isElf then NotElf
                       else if scn.elf != this || after.elf != this then ElfScnMismatch
                       else if scn == scn1 then NullScn
                       else NoError
      ensures error != NoError || scn == null || after == null ==> r == SHN_UNDEF && scns == old(scns)
      ensures error == NoError && scn != null && after != null ==>
                && scns == MovedAfter(old(scns), old(scn.index), old(after.index))
                && r == MovedTo(old(scn.index), old(after.index)) && scns[r] == scn
                && (scn != after ==> r > 0 && scns[r - 1] == after)
                && forall k {:trigger scns[k]} :: 0 <= k < |scns| ==>
                     (scns[k] == old(scns)[k] <==> CameFrom(old(scn.index), old(after.index), k) == k)
    {
      error := NoError;
      if scn == null || after == null {
        return SHN_UNDEF, NoError;
      }
      if !isElf {
        return SHN_UNDEF, NotElf;
      }
      if scn.elf != this || after.elf != this {
        return SHN_UNDEF, ElfScnMismatch;
      }
      if scn == scn1 {
        return SHN_UNDEF, NullScn;
      }
      ghost var was, i, j := scns, scn.index, after.index;
      r := MoveBehind(scn, after);
      MovedIndices(was, scns, i, j, this);
    }

    /** A section that is behind `after` already stays there. */
    method MoveBehind(scn: Scn, after: Scn) returns (r: nat)
      requires Valid() && scn in scns && after in scns && scn.index > 0
      modifies this`scns, this`scnN, scns`index, scns`link
      ensures Valid() && scns == MovedAfter(old(scns), old(scn.index), old(after.index))
      ensures r == MovedTo(old(scn.index), old(after.index)) && scns[r] == scn
    {
      ghost var i, j := scn.index, after.index;
      if scn == after || scn == after.link {
        assert scns[i] == scn && scns[j] == after && after.link == Next(scns, j);
        NothingToMove(scns, i, j);
        return scn.index;
      }
      Move(scn, after);
      r := scn.index;
    }

    method Move(scn: Scn, after: Scn)
      requires Valid() && scn in scns && after in scns && scn.index > 0 && scn != after && scn != after.link
      modifies this`scns, this`scnN, scns`index, scns`link
      ensures Valid() && scns == MovedAfter(old(scns), old(scn.index), old(after.index))
      ensures scn.index == MovedTo(old(scn.index), old(after.index))
    {
      ghost var moved;
      var prev;
      prev, moved := Reorder(scn, after);
      Adopt(prev, scn, after, moved);
    }

    method Adopt(prev: Scn, scn: Scn, after: Scn, ghost moved: seq<Scn>)
      requires scnN != null && moved != [] && Listed(moved, this) && scn1 == moved[0] && hasEhdr && file.Sound()
      requires moved[|moved| - 1] == if scnN == scn then prev else if scnN == after then scn else scnN
      modifies this`scns, this`scnN
      ensures Valid() && scns == moved
    {
      if scnN == scn {
        scnN := prev;
      } else if scnN == after {
        scnN := scn;
      }
      scns := moved;
    }

    method Reorder(scn: Scn, after: Scn) returns (prev: Scn, ghost moved: seq<Scn>)
      requires Valid() && scn in scns && after in scns && scn.index > 0 && scn != after && scn != after.link
      modifies scns`index, scns`link
      ensures |moved| == |scns| > 0 && Listed(moved, this) && moved[0] == scns[0]
      ensures moved[|moved| - 1] == if scnN == scn then prev else if scnN == after then scn else scnN
      ensures moved == MovedAfter(scns, old(scn.index), old(after.index))
      ensures scn.index == MovedTo(old(scn.index), old(after.index))
    {
      ghost var i, j := scn.index, after.index;
      prev := Rethread(scn, after);
      moved := MovedAfter(scns, i, j);
      MovedListed(scns, i, j, this);
    }

    method Rethread(scn: Scn, after: Scn) returns (prev: Scn)
      requires Valid() && scn in scns && after in scns && scn.index > 0 && scn != after && scn != after.link
      modifies scns`index, scns`link
      ensures var i, j := old(scn.index), old(after.index);
              && 0 < i < |scns| && j < |scns| && i != j && i != j + 1
              && scns[i] == scn && scns[j] == after && scns[i - 1] == prev
              && (forall m {:trigger scns[m].link} :: 0 <= m < |scns| ==> scns[m].link == RelinkedTo(scns, i, j, m))
              && (forall m {:trigger scns[m].index} :: 0 <= m < |scns| ==>
                    scns[m].index == if m == i then MovedTo(i, j) else m + Shift(i, j, m))
      ensures At(scns, scn, old(scn.index)) && At(scns, after, old(after.index))
    {
      ghost var i, j := scn.index, after.index;
      assert scns[i] == scn && scns[j] == after && after.link == Next(scns, j);
      prev := FindPrevious(scn);
      OnlyAt(scns, i - 1);
      OnlyAt(scns, i);
      OnlyAt(scns, j);
      ShiftIndices(scn, after);
      Relink(prev, scn, after, i, j);
    }

    method Relink(prev: Scn, scn: Scn, after: Scn, ghost i: nat, ghost j: nat)
      requires 0 < i < |scns| && j < |scns| && i != j && i != j + 1
      requires scns[i] == scn && scns[j] == after && scns[i - 1] == prev
      requires At(scns, prev, i - 1) && At(scns, scn, i) && At(scns, after, j) && Chained(scns)
      requires forall m {:trigger scns[m].index} :: 0 <= m < |scns| ==> scns[m].index == m + Shift(i, j, m)
      modifies prev`link, scn`link, scn`index, after`link
      ensures forall m {:trigger scns[m].link} :: 0 <= m < |scns| ==> scns[m].link == RelinkedTo(scns, i, j, m)
      ensures forall m {:trigger scns[m].index} :: 0 <= m < |scns| ==>
              scns[m].index == if m == i then MovedTo(i, j) else m + Shift(i, j, m)
    {
      prev.link := scn.link;
      scn.link := after.link;
      after.link := scn;
      scn.index := after.index + 1;
    }

    /** One pass over the list: what comes behind `after` moves up by one, what comes behind
        `scn` moves down by one. */
    method ShiftIndices(scn: Scn, after: Scn)
      requires Valid() && scn in scns && after in scns && scn != after
      modifies scns`index
      ensures forall m {:trigger scns[m]} :: 0 <= m < |scns| ==>
                scns[m].index == m + Shift(old(scn.index), old(after.index), m)
    {
      ghost var i, j := scn.index, after.index;
      assert scns[i] == scn && scns[j] == after;
      var off := 0;
      var tmp: Scn? := scn1;
      ghost var k := 0;
      while tmp != null
        invariant k <= |scns| && tmp == (if k == |scns| then null else scns[k])
        invariant off == Shift(i, j, k)
        invariant forall m {:trigger scns[m]} :: 0 <= m < |scns| ==>
                    scns[m].index == if m < k then m + Shift(i, j, m) else m
        decreases |scns| - k
      {
        assert old(tmp.index) == k && (tmp == after <==> k == j) && (tmp == scn <==> k == i);
        if off != 0 {
          tmp.index := tmp.index + off;
        }
        if tmp == after {
          off := off + 1;
        } else if tmp == scn {
          off := off - 1;
        }
        tmp := tmp.link;
        k := k + 1;
      }
    }

    /** The descriptor whose link leads to `scn`. */
    method FindPrevious(scn: Scn) returns (prev: Scn)
      requires Valid() && scn in scns && scn != scns[0]
      ensures scn.index > 0 && prev == scns[scn.index - 1] && prev.link == scn
    {
      prev := scn1;
      ghost var k := 0;
      while prev.link != null && prev.link != scn
        invariant k < |scns| && prev == scns[k] && k < scn.index
        decreases |scns| - k
      {
        prev := prev.link;
        k := k + 1;
      }
      assert prev.link == scns[k + 1];
    }

    // ----- Removing -----

    /** Why a section cannot be taken out of the list. */
    ghost function RemovalError(scn: Scn): Error
      reads this, scn
    {
      if scn.elf != this then ElfScnMismatch
      else if scn == scn1 then NullScn
      else if scn !in scns then ElfScnMismatch
      else NoError
    }

    method CheckRemovable(scn: Scn) returns (error: Error)
      requires Valid() && (scn.elf == this ==> scns != [])
      ensures error == RemovalError(scn)
    {
      if scn.elf != this {
        return ElfScnMismatch;
      }
      if scn == scn1 {
        return NullScn;
      }
      var pscn := scn1;
      ghost var k := 0;
      while pscn.link != null && pscn.link != scn
        invariant k < |scns| && pscn == scns[k]
        invariant forall m :: 0 <= m <= k ==> scns[m] != scn
        decreases |scns| - k
      {
        pscn := pscn.link;
        k := k + 1;
      }
      assert k < |scns| - 1 ==> pscn.link == scns[k + 1];
      error := if pscn.link != scn then ElfScnMismatch else NoError;
    }

    /** Unlinks the section and moves the indices behind it down by one. */
    method Unlink(scn: Scn) returns (index: nat)
      requires Valid() && 0 < scn.index < |scns| && scns[scn.index] == scn
      modifies this`scnN, this`scns, scns`index, scns`link
      ensures Valid() && index == old(scn.index) && 0 < index < |old(scns)| && old(scns)[index] == scn
      ensures scns == Without(old(scns), index)
      ensures forall k {:trigger scns[k]} :: 0 <= k < |scns| ==> (scns[k] == old(scns)[k] <==> k < index)
    {
      ghost var was := scns;
      OnlyAt(was, scn.index);
      var pscn;
      ghost var rest;
      index, pscn, rest := LinkPast(scn);
      Keep(pscn, scn, rest);
      RemainingIndices(was, scns, index, this);
    }

    method Keep(pscn: Scn, scn: Scn, ghost rest: seq<Scn>)
      requires scnN != null && rest != [] && Listed(rest, this) && scn1 == rest[0] && hasEhdr && file.Sound()
      requires rest[|rest| - 1] == if scnN == scn then pscn else scnN
      modifies this`scns, this`scnN
      ensures Valid() && scns == rest
    {
      if scnN == scn {
        scnN := pscn;
      }
      scns := rest;
    }

    method LinkPast(scn: Scn) returns (index: nat, pscn: Scn, ghost rest: seq<Scn>)
      requires Valid() && 0 < scn.index < |scns| && scns[scn.index] == scn
      modifies scns`index, scns`link
      ensures 0 < index < |scns| && scns[index] == scn && index == old(scn.index) && rest == Without(scns, index)
      ensures |rest| > 0 && Listed(rest, this) && rest[0] == scns[0]
      ensures rest[|rest| - 1] == if scnN == scn then pscn else scnN
    {
      pscn := FindPrevious(scn);
      index := scn.index;
      OnlyAt(scns, index);
      Bypass(scn, pscn);
      WithoutListed(scns, index, this);
      rest := Without(scns, index);
    }

    method Bypass(scn: Scn, pscn: Scn)
      requires Valid() && 0 < scn.index < |scns| && scns[scn.index] == scn && pscn == scns[scn.index - 1]
      modifies scns`index, pscn`link
      ensures forall m {:trigger scns[m].link} :: 0 <= m < |scns| ==>
                scns[m].link == Next(scns, if m == old(scn.index) - 1 then old(scn.index) else m)
      ensures forall m {:trigger scns[m].index} :: 0 <= m < |scns| ==>
                scns[m].index == if old(scn.index) < m then m - 1 else m
    {
      ghost var index := scn.index;
      OnlyAt(scns, index - 1);
      pscn.link := scn.link;
      LowerIndices(pscn.link, scns, index + 1);
    }

    method LowerIndices(first: Scn?, ghost s: seq<Scn>, ghost from: nat)
      requires 0 < from <= |s| && first == Next(s, from - 1)
      requires forall m {:trigger s[m]} :: 0 <= m < |s| ==> s[m].index == m
      requires forall m {:trigger s[m].link} :: from <= m < |s| ==> s[m].link == Next(s, m)
      modifies s`index
      ensures forall m {:trigger s[m]} :: 0 <= m < |s| ==> s[m].index == if from <= m then m - 1 else m
    {
      var tmp := first;
      ghost var k := from;
      while tmp != null
        invariant from <= k <= |s| && tmp == Next(s, k - 1)
        invariant forall m {:trigger s[m]} :: 0 <= m < |s| ==> s[m].index == if from <= m < k then m - 1 else m
        decreases |s| - k
      {
        assert old(tmp.index) == k && tmp.link == Next(s, k);
        tmp.index := tmp.index - 1;
        tmp := tmp.link;
        k := k + 1;
      }
    }

    method RemScn(scn: Scn?) returns (r: nat, error: Error)
      requires Valid() && (scn != null && scn.elf == this ==> scns != [])
      modifies this`shnum, this`scnN, this`scns, this`ehdrDirty, scns`index, scns`link, scns`shdr, scns`shdrDirty
      ensures Valid()
      ensures error == if scn == null then NoError
                       else if !isElf then NotElf
                       else if scn.elf != this then ElfScnMismatch
                       else if scn == scn1 then NullScn
                       else if scn !in old(scns) then ElfScnMismatch
                       else NoError
      ensures scn == null || error != NoError ==> r == SHN_UNDEF && scns == old(scns)
      ensures scn != null && error == NoError ==>
                && r == old(scn.index) && 0 < r < |old(scns)| && old(scns)[r] == scn
                && scns == Without(old(scns), r) && (Counted() <==> |scns| < WORD)
                && forall k {:trigger scns[k]} :: 0 <= k < |scns| ==> (scns[k] == old(scns)[k] <==> k < r)
      ensures forall s :: s in old(scns) ==> s.shdr == old(s.shdr).(size := s.shdr.size)
    {
      if scn == null {
        return SHN_UNDEF, NoError;
      }
      if !isElf {
        return SHN_UNDEF, NotElf;
      }
      error := CheckRemovable(scn);
      if error != NoError {
        return SHN_UNDEF, error;
      }
      r := scn.index;
      Remove(scn);
    }

    method Remove(scn: Scn)
      requires Valid() && RemovalError(scn) == NoError
      modifies this`shnum, this`scnN, this`scns, this`ehdrDirty, scns`index, scns`link, scns`shdr, scns`shdrDirty
      ensures Valid() && 0 < old(scn.index) < |old(scns)| && old(scns)[old(scn.index)] == scn
      ensures scns == Without(old(scns), old(scn.index)) && (Counted() <==> |scns| < WORD)
      ensures forall k {:trigger scns[k]} :: 0 <= k < |scns| ==> (scns[k] == old(scns)[k] <==> k < old(scn.index))
      ensures forall s :: s in old(scns) ==> s.shdr == old(s.shdr).(size := s.shdr.size)
    {
      var index := Unlink(scn);
      UpdateShnum(scnN.index + 1);
    }

    /** Takes a section out and renumbers the references of the well-known section types.
        Unlike RemScn it stores the count without the escape, cut to 16 bits. */
    method DelScn(scn: Scn?) returns (r: nat, error: Error)
      requires Valid() && hasEhdr && (scn != null && scn.elf == this ==> scns != [])
      modifies this`shnum, this`scnN, this`scns, scns`index, scns`link, scns`shdr
      ensures Valid()
      ensures error == if scn == null then NoError
                       else if scn.elf != this then ElfScnMismatch
                       else if scn == scn1 then NullScn
                       else if scn !in old(scns) then ElfScnMismatch
                       else NoError
      ensures scn == null || error != NoError ==> r == SHN_UNDEF && scns == old(scns) && shnum == old(shnum)
      ensures scn != null && error == NoError ==>
                && r == old(scn.index) && 0 < r < |old(scns)| && old(scns)[r] == scn
                && scns == Without(old(scns), r) && shnum == |scns| % HALF
                && (forall k {:trigger scns[k]} :: 0 <= k < |scns| ==> (scns[k] == old(scns)[k] <==> k < r))
                && (forall i {:trigger scns[i]} :: 0 <= i < |scns| ==>
                      var o := scns[i]; Redirected(o.shdr, scns, old(o.shdr), old(scns), old(scn.index)))
                && (old(Counted()) ==> (Counted() <==> |scns| < HALF))
    {
      if scn == null {
        return SHN_UNDEF, NoError;
      }
      error := CheckRemovable(scn);
      if error != NoError {
        return SHN_UNDEF, error;
      }
      r := scn.index;
      Delete(scn);
    }

    method Delete(scn: Scn)
      requires Valid() && RemovalError(scn) == NoError
      modifies this`shnum, this`scnN, this`scns, scns`index, scns`link, scns`shdr
      ensures Valid() && 0 < old(scn.index) < |old(scns)| && old(scns)[old(scn.index)] == scn
      ensures scns == Without(old(scns), old(scn.index)) && shnum == |scns| % HALF
      ensures forall k {:trigger scns[k]} :: 0 <= k < |scns| ==> (scns[k] == old(scns)[k] <==> k < old(scn.index))
      ensures forall i {:trigger scns[i]} :: 0 <= i < |scns| ==>
                var o := scns[i]; Redirected(o.shdr, scns, old(o.shdr), old(scns), old(scn.index))
      ensures old(Counted()) ==> (Counted() <==> |scns| < HALF)
    {
      var index := Unlink(scn);
      RenumberReferences(index, old(scns));
      CutShnum();
    }

    method CutShnum()
      requires Valid() && scns != []
      modifies this`shnum
      ensures shnum == |scns| % HALF
      ensures DecodeCount(old(shnum), scns[0].shdr.size) == |scns| + 1 ==> (Counted() <==> |scns| < HALF)
    {
      CutCount(|scns|, shnum, scns[0].shdr.size, (scnN.index + 1) % HALF);
      shnum := (scnN.index + 1) % HALF;
    }

    method RenumberReferences(index: nat, ghost before: seq<Scn>)
      requires Valid() && 0 < index < |before| && scns == Without(before, index)
      modifies scns`shdr
      ensures Valid()
      ensures forall i {:trigger scns[i]} :: 0 <= i < |scns| ==>
                var o := scns[i]; Redirected(o.shdr, scns, old(o.shdr), before, index)
      ensures scns[0].shdr.size == old(scns[0].shdr.size)
    {
      var tmp: Scn? := scn1;
      ghost var k := 0;
      while tmp != null
        invariant k <= |scns| && tmp == (if k == |scns| then null else scns[k])
        invariant forall m {:trigger scns[m]} :: 0 <= m < |scns| ==>
                    scns[m].shdr == if m < k then Renumbered(old(scns[m].shdr), index) else old(scns[m].shdr)
        decreases |scns| - k
      {
        assert old(tmp.index) == k && tmp.link == Next(scns, k);
        var shdr := tmp.shdr;
        if HasInfo(shdr.stype) {
          shdr := shdr.(info := NewIndex(shdr.info, index));
        }
        if HasLink(shdr.stype) {
          shdr := shdr.(link := NewIndex(shdr.link, index));
        }
        tmp.shdr := shdr;
        tmp := tmp.link;
        k := k + 1;
      }
      forall i {:trigger scns[i]} | 0 <= i < |scns|
        ensures var o := scns[i]; Redirected(o.shdr, scns, old(o.shdr), before, index)
      {
        RenumberedIsRedirected(before, index, old(scns[i].shdr));
      }
    }
  }

  method ManySections(count: nat) returns (elf: Elf)
    requires 2 <= count < WORD
    ensures fresh(elf) && elf.Valid() && elf.isElf && elf.hasEhdr && |elf.scns| == count && elf.Counted()
    ensures forall s :: s in elf.scns ==> fresh(s)
  {
    elf := new Elf();
    var scn, error := elf.NewScn();
    var n := 2;
    while n < count
      invariant n <= count && elf.Valid() && elf.isElf && elf.hasEhdr && |elf.scns| == n && elf.Counted()
      invariant fresh(elf) && forall s :: s in elf.scns ==> fresh(s)
    {
      scn, error := elf.NewScn();
      n := n + 1;
    }
  }

  /** A file of one section too many for 16 bits: after deleting a section, its count says that there is none. */
  method CountLost() returns (elf: Elf)
    ensures elf.Valid() && elf.isElf && |elf.scns| == HALF && elf.shnum == 0 && !elf.Counted()
  {
    elf := ManySections(HALF + 1);
    var scn, error := elf.GetScn(1);
    assert scn == elf.scns[1] && scn in elf.scns && scn != elf.scns[0] && elf.RemovalError(scn) == NoError;
    var index;
    index, error := elf.DelScn(scn);
    assert HALF % HALF == 0;
  }
}
