/**
 Strings by section and offset: which buffer of the section holds the string, and where.
 */
module ElfStrings {
  import opened Basics
  import opened ElfTypes
  import opened ElfPatches
  import opened ElfLayout
  import opened ElfLayoutLaws
  import opened ElfWriter
  import opened ElfWriterLaws
  import opened ElfRoundTrip
  import opened ElfCookLaws
  import opened ElfContents
  import opened ElfUpdate

  datatype StrError = NoSuchScn | NoStrTab | BadStrOff | NullBuf | Unterminated

  /** Buffer `buffer` of the section, at `pos`. */
  datatype StrPtr = StrPtr(buffer: nat, pos: nat) | NoStr(error: StrError)

  // ----- The two searches -----

  predicate Covers(d: Data, n: nat, offset: nat) {
    n <= offset < n + d.size
  }

  /** Caller's layout: the first buffer whose own offset and size cover the offset. */
  function ByOffset(ds: seq<Data>, offset: nat, k: nat): Option<(nat, nat)>
    requires k <= |ds|
    decreases |ds| - k
  {
    if k == |ds| then None
    else if Covers(ds[k], ds[k].off, offset) then Some((k, ds[k].off))
    else ByOffset(ds, offset, k + 1)
  }

  /** Default layout: the offsets are computed along the way, and holes are noticed. */
  function ByWalk(ds: seq<Data>, offset: nat, n: nat, k: nat): Option<(nat, nat)>
    requires k <= |ds|
    decreases |ds| - k
  {
    if k == |ds| then None
    else
      var at := AlignUp(n, ds[k].align);
      if offset < at then None
      else if offset - at < ds[k].size then Some((k, at))
      else ByWalk(ds, offset, at + ds[k].size, k + 1)
  }

  /** From buffer `k` on, every buffer that is not empty has the offset at which the walk, now at `n`, meets it. */
  predicate WalkedOffsets(ds: seq<Data>, n: nat, k: nat)
    requires k <= |ds|
    decreases |ds| - k
  {
    if k == |ds| then true
    else
      var at := AlignUp(n, ds[k].align);
      (ds[k].size > 0 ==> ds[k].off == at) && WalkedOffsets(ds, at + ds[k].size, k + 1)
  }

  lemma {:induction false} BehindAll(ds: seq<Data>, n: nat, k: nat, offset: nat)
    requires k <= |ds| && WalkedOffsets(ds, n, k) && offset < n
    ensures ByOffset(ds, offset, k) == None
    decreases |ds| - k
  {
    if k < |ds| {
      BehindAll(ds, AlignUp(n, ds[k].align) + ds[k].size, k + 1, offset);
    }
  }

  lemma {:induction false} SearchesAgree(ds: seq<Data>, n: nat, k: nat, offset: nat)
    requires k <= |ds| && WalkedOffsets(ds, n, k)
    ensures ByWalk(ds, offset, n, k) == ByOffset(ds, offset, k)
    decreases |ds| - k
  {
    if k < |ds| {
      var at := AlignUp(n, ds[k].align);
      SearchesAgree(ds, at + ds[k].size, k + 1, offset);
      if offset < at {
        BehindAll(ds, at + ds[k].size, k + 1, offset);
      }
    }
  }

  lemma {:induction false} SearchesDiffer(ds: seq<Data>, n: nat, k: nat) returns (offset: nat)
    requires k <= |ds| && !WalkedOffsets(ds, n, k)
    ensures offset >= n && ByWalk(ds, offset, n, k) != ByOffset(ds, offset, k)
    decreases |ds| - k
  {
    var at := AlignUp(n, ds[k].align);
    if ds[k].size > 0 && ds[k].off != at {
      offset := at;
      OffsetFinds(ds, offset, k + 1);
    } else {
      offset := SearchesDiffer(ds, at + ds[k].size, k + 1);
    }
  }

  /** A default layout puts buffers of full size where the walk meets them. */
  lemma {:induction false} PlacedAsWalked(stype: Word, ds: seq<Data>, n: nat, all: seq<Data>, k: nat)
    requires PlaceData(stype, ds, n).Some? && k <= |all| && all[k..] == PlaceData(stype, ds, n).value.0
    requires forall j {:trigger ds[j]} :: 0 <= j < |ds| ==> DataSize(stype, ds[j]) == Some(ds[j].size)
    ensures WalkedOffsets(all, n, k)
    decreases |ds|
  {
    if ds != [] {
      assert all[k] == all[k..][0] && all[k + 1..] == all[k..][1..];
      PlacedAsWalked(stype, ds[1..], AlignUp(n, ds[0].align) + ds[0].size, all, k + 1);
    }
  }

  // ----- String pointers -----

  function Search(ds: seq<Data>, offset: nat, callerLayout: bool): Option<(nat, nat)> {
    if callerLayout then ByOffset(ds, offset, 0) else ByWalk(ds, offset, 0, 0)
  }

  /** The two searches find the same for every offset if and only if the buffers lie where the walk meets them. */
  lemma SearchesAgreeExactly(ds: seq<Data>)
    ensures (forall offset: nat :: Search(ds, offset, true) == Search(ds, offset, false)) <==> WalkedOffsets(ds, 0, 0)
  {
    if WalkedOffsets(ds, 0, 0) {
      forall offset: nat
        ensures Search(ds, offset, true) == Search(ds, offset, false)
      {
        SearchesAgree(ds, 0, 0, offset);
      }
    } else {
      var offset := SearchesDiffer(ds, 0, 0);
      assert Search(ds, offset, true) != Search(ds, offset, false);
    }
  }

  predicate HasEnd(buf: seq<byte>, pos: nat) {
    exists n :: pos <= n < |buf| && buf[n] == 0
  }

  /** `checks` asks for strings that end inside their buffer. */
  function PointTo(sections: seq<Section>, section: nat, offset: nat, callerLayout: bool, checks: bool): StrPtr {
    if section >= |sections| then NoStr(NoSuchScn)
    else if section == SHN_UNDEF || sections[section].shdr.stype != SHT_STRTAB then NoStr(NoStrTab)
    else
      var found := Search(sections[section].data, offset, callerLayout);
      if found.None? then NoStr(BadStrOff)
      else
        var (k, n) := found.value;
        SearchInside(sections[section].data, offset, callerLayout);
        var buf := sections[section].data[k].buf;
        if buf.None? then NoStr(NullBuf)
        else if checks && !HasEnd(buf.value, offset - n) then NoStr(Unterminated)
        else StrPtr(k, offset - n)
  }

  lemma {:induction false} WalkFinds(ds: seq<Data>, offset: nat, n: nat, k: nat)
    requires k <= |ds|
    ensures var r := ByWalk(ds, offset, n, k); r.Some? ==> r.value.0 < |ds| && Covers(ds[r.value.0], r.value.1, offset)
    decreases |ds| - k
  {
    if k < |ds| {
      WalkFinds(ds, offset, AlignUp(n, ds[k].align) + ds[k].size, k + 1);
    }
  }

  lemma {:induction false} OffsetFinds(ds: seq<Data>, offset: nat, k: nat)
    requires k <= |ds|
    ensures var r := ByOffset(ds, offset, k);
            r.Some? ==>
              k <= r.value.0 < |ds| && Covers(ds[r.value.0], r.value.1, offset) && r.value.1 == ds[r.value.0].off
    decreases |ds| - k
  {
    if k < |ds| {
      OffsetFinds(ds, offset, k + 1);
    }
  }

  /** A search that finds something finds a position inside a buffer. */
  lemma SearchInside(ds: seq<Data>, offset: nat, callerLayout: bool)
    ensures var r := Search(ds, offset, callerLayout);
            r.Some? ==> r.value.0 < |ds| && Covers(ds[r.value.0], r.value.1, offset)
  {
    WalkFinds(ds, offset, 0, 0);
    OffsetFinds(ds, offset, 0);
  }

  method FindByOffset(ds: seq<Data>, offset: nat) returns (r: Option<(nat, nat)>)
    ensures r == ByOffset(ds, offset, 0)
  {
    var k := 0;
    while k < |ds|
      invariant 0 <= k <= |ds| && ByOffset(ds, offset, k) == ByOffset(ds, offset, 0)
    {
      var n := ds[k].off;
      if offset >= n && offset - n < ds[k].size {
        return Some((k, n));
      }
      k := k + 1;
    }
    r := None;
  }

  method FindByWalk(ds: seq<Data>, offset: nat) returns (r: Option<(nat, nat)>)
    ensures r == ByWalk(ds, offset, 0, 0)
  {
    var n: nat, k := 0, 0;
    while k < |ds|
      invariant 0 <= k <= |ds| && ByWalk(ds, offset, n, k) == ByWalk(ds, offset, 0, 0)
    {
      n := AlignUp(n, ds[k].align);
      if offset < n {
        return None;
      }
      if offset - n < ds[k].size {
        return Some((k, n));
      }
      n := n + ds[k].size;
      k := k + 1;
    }
    r := None;
  }

  method FindEnd(buf: seq<byte>, pos: nat) returns (found: bool)
    requires pos <= |buf|
    ensures found == HasEnd(buf, pos)
  {
    var n := pos;
    while n < |buf|
      invariant pos <= n <= |buf| && forall m :: pos <= m < n ==> buf[m] != 0
    {
      if buf[n] == 0 {
        return true;
      }
      n := n + 1;
    }
    found := false;
  }

  method Strptr(elf: ElfFile, section: nat, offset: nat, checks: bool) returns (r: StrPtr)
    requires BuffersSized(elf.State())
    ensures r == PointTo(elf.sections, section, offset, elf.callerLayout, checks)
  {
    if section >= |elf.sections| {
      return NoStr(NoSuchScn);
    }
    if section == SHN_UNDEF || elf.sections[section].shdr.stype != SHT_STRTAB {
      return NoStr(NoStrTab);
    }
    var ds := elf.sections[section].data;
    var found;
    if elf.callerLayout {
      found := FindByOffset(ds, offset);
    } else {
      found := FindByWalk(ds, offset);
    }
    SearchInside(ds, offset, elf.callerLayout);
    if found.None? {
      return NoStr(BadStrOff);
    }
    var k, pos := found.value.0, offset - found.value.1;
    if ds[k].buf.None? {
      return NoStr(NullBuf);
    }
    if checks {
      assert WellSized(ds[k]);
      var ends := FindEnd(ds[k].buf.value, pos);
      if !ends {
        return NoStr(Unterminated);
      }
    }
    r := StrPtr(k, pos);
  }

  // ----- Main results -----

  /** All buffers of a section take as many bytes in the file as in memory. */
  predicate FullSize(s: Section) {
    forall k {:trigger s.data[k]} :: 0 <= k < |s.data| ==> DataSize(s.shdr.stype, s.data[k]) == Some(s.data[k].size)
  }

  predicate StringTable(f: File, section: nat)
    requires section < |f.sections|
  {
    section != SHN_UNDEF && f.sections[section].shdr.stype == SHT_STRTAB
  }

  lemma FullSizeWalked(f: File, g: File, section: nat)
    requires Defaulted(f) && section < |f.sections| && g == Layout(f).value.0 && StringTable(f, section)
    requires FullSize(f.sections[section])
    ensures section < |g.sections| && WalkedOffsets(g.sections[section].data, 0, 0)
  {
    LiveSectionLaidOut(f, section);
    var ds := g.sections[section].data;
    assert ds[0..] == ds;
    PlacedAsWalked(SHT_STRTAB, f.sections[section].data, 0, ds, 0);
  }

  /** After a default layout, both ways to search a string table find the same for every offset if and only if its
      buffers lie where the walk meets them, which is so if all of them are of full size. */
  lemma ModesAgree(f: File, g: File, section: nat)
    requires Defaulted(f) && section < |f.sections| && g == Layout(f).value.0 && StringTable(f, section)
    ensures |g.sections| == |f.sections| && StringTable(g, section)
    ensures var ds := g.sections[section].data;
            (forall offset: nat :: Search(ds, offset, true) == Search(ds, offset, false)) <==> WalkedOffsets(ds, 0, 0)
    ensures FullSize(f.sections[section]) ==> WalkedOffsets(g.sections[section].data, 0, 0)
  {
    TypesKept(f, section);
    SearchesAgreeExactly(g.sections[section].data);
    if FullSize(f.sections[section]) {
      FullSizeWalked(f, g, section);
    }
  }

  /** The string pointers are then the same, and so are the errors. */
  lemma SamePointers(f: File, section: nat, offset: nat, checks: bool)
    requires section < |f.sections| && StringTable(f, section) ==> WalkedOffsets(f.sections[section].data, 0, 0)
    ensures PointTo(f.sections, section, offset, true, checks) == PointTo(f.sections, section, offset, false, checks)
  {
    if section < |f.sections| && StringTable(f, section) {
      SearchesAgree(f.sections[section].data, 0, 0, offset);
    }
  }

  function Buffer(dtype: ElfType, size: nat): Data {
    Data(Some(seq(size, _ => 0)), dtype, size, 0, 1, EV_CURRENT, false)
  }

  /** Five bytes as words: only four of them get into the file, so the next buffer is placed before its end. */
  lemma PartialWord() returns (ds: seq<Data>)
    ensures PlaceData(SHT_STRTAB, ds, 0).Some?
    ensures var t := PlaceData(SHT_STRTAB, ds, 0).value.0;
            Search(t, 5, true) == Some((1, 4)) && Search(t, 5, false) == Some((1, 5))
  {
    ds := [Buffer(TWord, 5), Buffer(TByte, 3)];
    assert ds[1..] == [Buffer(TByte, 3)] && ds[1..][1..] == [];
    var t := PlaceData(SHT_STRTAB, ds, 0).value.0;
    assert t == [Moved(Buffer(TWord, 5), 0), Moved(Buffer(TByte, 3), 4)];
    assert ByOffset(t, 5, 1) == Some((1, 4)) && ByWalk(t, 5, 5, 1) == Some((1, 5));
  }

  lemma {:induction false} BytesOfFullSize(stype: Word, ds: seq<Data>, n: nat)
    requires PlaceData(stype, ds, n).Some? && forall k {:trigger ds[k]} :: 0 <= k < |ds| ==> ds[k].dtype == TByte
    ensures forall k {:trigger ds[k]} :: 0 <= k < |ds| ==> DataSize(stype, ds[k]) == Some(ds[k].size)
  {
    if ds != [] {
      BytesOfFullSize(stype, ds[1..], AlignUp(n, ds[0].align) + DataSize(stype, ds[0]).value);
    }
  }

  /** The buffer that holds the string, before and after the layout `g`. */
  lemma FoundBuffer(f: File, g: File, section: nat, offset: nat, checks: bool, k: nat, pos: nat)
    returns (d: Data, lo: nat)
    requires Defaulted(f) && g == Layout(f).value.0 && section < |f.sections| && FullSize(f.sections[section])
    requires PointTo(g.sections, section, offset, false, checks) == StrPtr(k, pos)
    ensures Filed(f.sections[section], section) && k < |f.sections[section].data| && d == f.sections[section].data[k]
    ensures |g.sections| == |f.sections| && pos < d.size
    ensures LiesAt(g, section, k, lo, lo + d.size) && lo + pos == g.sections[section].shdr.offset + offset
  {
    var ds := g.sections[section].data;
    TypesKept(f, section);
    FullSizeWalked(f, g, section);
    SearchesAgree(ds, 0, 0, offset);
    OffsetFinds(ds, offset, 0);
    PlacedCount(f, section, g);
    d, lo := f.sections[section].data[k], g.sections[section].shdr.offset + ds[k].off;
    PlacedBuffer(f, section, g, k);
  }

  /** A string that is found is, byte for byte, the one at its offset in the section in the written file. */
  lemma StringIsInFile(f: File, g: File, b: seq<byte>, ps: seq<Piece>, section: nat, offset: nat, checks: bool, k: nat,
                       pos: nat)
    returns (d: Data, at: nat, end: nat)
    requires Defaulted(f) && g == Layout(f).value.0 && BuffersSized(f) && |b| == Layout(f).value.1
             && WriteFile(g) == Pieces(ps)
    requires section < |f.sections| && PointTo(g.sections, section, offset, false, checks) == StrPtr(k, pos)
    requires forall j {:trigger f.sections[section].data[j]} :: 0 <= j < |f.sections[section].data| ==>
             f.sections[section].data[j].dtype == TByte
    ensures k < |f.sections[section].data| && d == f.sections[section].data[k] && d.buf.Some? && pos < |d.buf.value|
    ensures section < |g.sections| && at == g.sections[section].shdr.offset + offset
    ensures Fits(ps, |b|) && at <= end <= |b| && PatchAll(b, ps)[at..end] == d.buf.value[pos..]
  {
    var lo: nat;
    TypesKept(f, section);
    LiveSectionLaidOut(f, section);
    BytesOfFullSize(f.sections[section].shdr.stype, f.sections[section].data, 0);
    d, lo := FoundBuffer(f, g, section, offset, checks, k, pos);
    at, end := lo + pos, lo + d.size;
    BufferInFile(f, b, ps, section, k, d, lo, end);
    TailOfSlice(PatchAll(b, ps), lo, end, d.buf.value, pos, at);
  }

  // ----- What a pointer means -----

  /** Where buffer `k` is taken to start: at its offset, or where the sizes of those before it put it. */
  function Start(ds: seq<Data>, k: nat, callerLayout: bool): nat
    requires k < |ds|
  {
    if callerLayout then ds[k].off
    else AlignUp(if k == 0 then 0 else Start(ds, k - 1, false) + ds[k - 1].size, ds[k].align)
  }

  predicate HasByte(ds: seq<Data>, k: nat, offset: nat, callerLayout: bool)
    requires k < |ds|
  {
    Start(ds, k, callerLayout) <= offset < Start(ds, k, callerLayout) + ds[k].size
  }

  /** Buffer `k` is the first that has the byte at `offset`. */
  ghost predicate FirstWith(ds: seq<Data>, k: nat, offset: nat, callerLayout: bool) {
    && k < |ds| && HasByte(ds, k, offset, callerLayout)
    && forall j {:trigger HasByte(ds, j, offset, callerLayout)} :: 0 <= j < k ==> !HasByte(ds, j, offset, callerLayout)
  }

  lemma {:induction false} OffsetIsFirst(ds: seq<Data>, offset: nat, k: nat)
    requires k <= |ds|
    requires forall j {:trigger HasByte(ds, j, offset, true)} :: 0 <= j < k ==> !HasByte(ds, j, offset, true)
    ensures var r := ByOffset(ds, offset, k);
            if r.Some? then FirstWith(ds, r.value.0, offset, true) && r.value.1 == Start(ds, r.value.0, true)
            else forall j {:trigger HasByte(ds, j, offset, true)} :: 0 <= j < |ds| ==> !HasByte(ds, j, offset, true)
    decreases |ds| - k
  {
    if k < |ds| {
      assert HasByte(ds, k, offset, true) <==> Covers(ds[k], ds[k].off, offset);
      if !HasByte(ds, k, offset, true) {
        OffsetIsFirst(ds, offset, k + 1);
      }
    }
  }

  /** Buffers start one behind the other. */
  lemma {:induction false} StartsLater(ds: seq<Data>, k: nat, j: nat)
    requires k <= j < |ds|
    ensures Start(ds, k, false) <= Start(ds, j, false)
    decreases j
  {
    if k < j {
      StartsLater(ds, k, j - 1);
    }
  }

  lemma {:induction false} WalkIsFirst(ds: seq<Data>, offset: nat, n: nat, k: nat)
    requires k <= |ds| && n == if k == 0 then 0 else Start(ds, k - 1, false) + ds[k - 1].size
    requires forall j {:trigger HasByte(ds, j, offset, false)} :: 0 <= j < k ==> !HasByte(ds, j, offset, false)
    ensures var r := ByWalk(ds, offset, n, k);
            if r.Some? then FirstWith(ds, r.value.0, offset, false) && r.value.1 == Start(ds, r.value.0, false)
            else forall j {:trigger HasByte(ds, j, offset, false)} :: 0 <= j < |ds| ==> !HasByte(ds, j, offset, false)
    decreases |ds| - k
  {
    if k < |ds| {
      var at := AlignUp(n, ds[k].align);
      assert at == Start(ds, k, false);
      if offset < at {
        forall j {:trigger HasByte(ds, j, offset, false)} | k <= j < |ds|
          ensures !HasByte(ds, j, offset, false)
        {
          StartsLater(ds, k, j);
        }
      } else if offset - at >= ds[k].size {
        WalkIsFirst(ds, offset, at + ds[k].size, k + 1);
      }
    }
  }

  /** Which pointers there are: into the first buffer of a string table that has the byte, if the buffer is there and,
      where that is asked for, a zero byte follows in it. */
  lemma PointerExactly(sections: seq<Section>, section: nat, offset: nat, callerLayout: bool, checks: bool, k: nat,
                       pos: nat)
    ensures PointTo(sections, section, offset, callerLayout, checks) == StrPtr(k, pos) <==>
            && 0 < section < |sections| && sections[section].shdr.stype == 3
            && FirstWith(sections[section].data, k, offset, callerLayout)
            && pos == offset - Start(sections[section].data, k, callerLayout)
            && sections[section].data[k].buf.Some?
            && (checks ==>
                  exists n {:trigger sections[section].data[k].buf.value[n]} ::
                    pos <= n < |sections[section].data[k].buf.value| && sections[section].data[k].buf.value[n] == 0)
  {
    if section < |sections| {
      SearchIsFirst(sections[section].data, offset, callerLayout);
    }
  }

  lemma SearchIsFirst(ds: seq<Data>, offset: nat, callerLayout: bool)
    ensures var r := Search(ds, offset, callerLayout);
            if r.Some? then FirstWith(ds, r.value.0, offset, callerLayout)
                            && r.value.1 == Start(ds, r.value.0, callerLayout)
            else forall j {:trigger HasByte(ds, j, offset, callerLayout)} :: 0 <= j < |ds| ==>
                   !HasByte(ds, j, offset, callerLayout)
  {
    OffsetIsFirst(ds, offset, 0);
    WalkIsFirst(ds, offset, 0, 0);
  }

  /** Why there is none: no such section, no string table, an offset that no buffer has, or a buffer that is not there
      or has no end of the string. */
  lemma NoPointerExactly(sections: seq<Section>, section: nat, offset: nat, callerLayout: bool, checks: bool, r: StrPtr)
    requires r == PointTo(sections, section, offset, callerLayout, checks)
    ensures r == NoStr(NoSuchScn) <==> section >= |sections|
    ensures r == NoStr(NoStrTab) <==> section < |sections| && (section == 0 || sections[section].shdr.stype != 3)
    ensures r == NoStr(BadStrOff) <==>
            && 0 < section < |sections| && sections[section].shdr.stype == 3
            && forall k {:trigger HasByte(sections[section].data, k, offset, callerLayout)} ::
                 0 <= k < |sections[section].data| ==> !HasByte(sections[section].data, k, offset, callerLayout)
    ensures r.NoStr? && r.error != NoSuchScn && r.error != NoStrTab && r.error != BadStrOff ==>
              exists k: nat :: FirstWith(sections[section].data, k, offset, callerLayout)
                          && r == NoStr(if sections[section].data[k].buf.None? then NullBuf else Unterminated)
  {
    if section < |sections| {
      SearchIsFirst(sections[section].data, offset, callerLayout);
    }
  }
}
