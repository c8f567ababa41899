/**
 Archives as they are written: members whose names are short or kept in a string table, which is the first member.
 */
module ElfArchiveWriting {
  import opened Basics
  import opened ElfArchiveNumbers
  import opened ElfArchiveHeaders

  // ----- Fields of a header -----

  function NumberField(n: nat, base: nat, width: nat): (s: seq<byte>)
    requires 2 <= base <= 10 && |Show(n, base)| <= width
    ensures |s| == width
  {
    Show(n, base) + Blank(width - |Show(n, base)|)
  }

  lemma NumberFieldRead(n: nat, base: nat, width: nat)
    requires 2 <= base <= 10 && |Show(n, base)| <= width
    ensures NumberOf(NumberField(n, base, width), base) == Some(n)
  {
    var s := NumberField(n, base, width);
    FieldRoundTrip(n, base, 0, width - |Show(n, base)|);
    assert Blank(0) + Show(n, base) + Blank(width - |Show(n, base)|) == s;
    NumberIs(s, base, 0, |Show(n, base)|);
  }

  /** A name that fits the header with the slash that ends it. */
  predicate IsShort(name: seq<byte>) {
    0 < |name| <= 15 && name[0] != SLASH
  }

  /** A name that does not fit the header and can be kept in the string table. */
  predicate IsLong(name: seq<byte>) {
    !IsShort(name) && SLASH !in name
  }

  /** The name itself, or its place in the string table. */
  function NameField(name: seq<byte>, place: nat): (s: seq<byte>)
    requires IsShort(name) || |Show(place, 10)| <= 15
    ensures |s| == 16
  {
    if IsShort(name) then name + [SLASH] + Blank(15 - |name|) else [SLASH] + NumberField(place, 10, 15)
  }

  lemma {:induction false} SpacesPassed(s: seq<byte>, len: nat, n: nat)
    requires 0 < len <= n <= |s| && s[len - 1] != SPACE && forall i :: len <= i < n ==> s[i] == SPACE
    ensures NameLength(s, n) == len
  {
    if n > len {
      SpacesPassed(s, len, n - 1);
    }
  }

  lemma ShortNameRead(name: seq<byte>, place: nat, table: Option<seq<byte>>)
    requires IsShort(name)
    ensures NameOf(NameField(name, place), table) == Name(name)
  {
    var s := NameField(name, place);
    SpacesPassed(s, |name| + 1, 16);
    assert s[..|name|] == name;
  }

  /** The string table has the name, and a slash behind it, at the given place. */
  ghost predicate NameAt(table: seq<byte>, place: nat, name: seq<byte>) {
    && place + |name| < |table| && table[place..place + |name|] == name && table[place + |name|] == SLASH
  }

  lemma {:induction false} NameEnds(table: seq<byte>, at: nat, end: nat)
    requires at <= end < |table| && table[end] == SLASH && forall i :: at <= i < end ==> table[i] != SLASH
    ensures NameEnd(table, at) == end
    decreases end - at
  {
    if at < end {
      NameEnds(table, at + 1, end);
    }
  }

  lemma ShownIsNumber(n: nat)
    ensures NumberOf(Show(n, 10), 10) == Some(n) && IsDigit(Show(n, 10)[0], 10)
    ensures Show(n, 10)[|Show(n, 10)| - 1] != SPACE
  {
    var s := Show(n, 10);
    FieldRoundTrip(n, 10, 0, 0);
    assert Blank(0) + s + Blank(0) == s;
    NumberIs(s, 10, 0, |s|);
    assert IsDigit(s[0], 10) && IsDigit(s[|s| - 1], 10);
  }

  lemma LongField(name: seq<byte>, place: nat, s: seq<byte>, digits: seq<byte>, len: nat)
    requires !IsShort(name) && |Show(place, 10)| <= 15 && s == NameField(name, place)
    requires digits == Show(place, 10) && len == 1 + |digits|
    ensures |s| == 16 && len <= 16 && NameLength(s, 16) == len && s[1..len] == digits && s[0] == SLASH
    ensures IsDigit(s[1], 10)
  {
    ShownIsNumber(place);
    assert s == [SLASH] + (digits + Blank(15 - |digits|));
    assert s[1] == digits[0] && s[len - 1] == digits[|digits| - 1];
    SpacesPassed(s, len, 16);
  }

  lemma NameInTable(table: seq<byte>, place: nat, name: seq<byte>)
    requires SLASH !in name && NameAt(table, place, name)
    ensures place < |table| && NameEnd(table, place) == place + |name|
  {
    forall i | place <= i < place + |name|
      ensures table[i] != SLASH
    {
      assert table[i] == table[place..place + |name|][i - place] == name[i - place];
    }
    NameEnds(table, place, place + |name|);
  }

  lemma LongNameRead(name: seq<byte>, place: nat, table: seq<byte>)
    requires IsLong(name) && |Show(place, 10)| <= 15 && NameAt(table, place, name)
    ensures NameOf(NameField(name, place), Some(table)) == Name(name)
  {
    var digits := Show(place, 10);
    LongField(name, place, NameField(name, place), digits, 1 + |digits|);
    ShownIsNumber(place);
    NameInTable(table, place, name);
    assert LongName(digits, Some(table)) == Name(name);
  }

  // ----- Headers -----

  predicate Fitting(a: Attributes, size: nat) {
    && |Show(a.date, 10)| <= 12 && |Show(a.uid, 10)| <= 6 && |Show(a.gid, 10)| <= 6 && |Show(a.mode, 8)| <= 8
    && |Show(size, 10)| <= 10
  }

  function Header(name: seq<byte>, a: Attributes, size: nat): (h: seq<byte>)
    requires |name| == 16 && Fitting(a, size)
    ensures |h| == HEADER_SIZE
  {
    name + NumberField(a.date, 10, 12) + NumberField(a.uid, 10, 6) + NumberField(a.gid, 10, 6)
    + NumberField(a.mode, 8, 8) + NumberField(size, 10, 10) + HeaderMagic()
  }

  lemma HeaderParts(name: seq<byte>, a: Attributes, size: nat, h: seq<byte>)
    requires |name| == 16 && Fitting(a, size) && h == Header(name, a, size)
    ensures h[..16] == name && h[16..28] == NumberField(a.date, 10, 12) && h[28..34] == NumberField(a.uid, 10, 6)
    ensures h[34..40] == NumberField(a.gid, 10, 6) && h[40..48] == NumberField(a.mode, 8, 8)
    ensures h[48..58] == NumberField(size, 10, 10) && h[58..] == HeaderMagic()
  {
  }

  lemma NumbersRead(name: seq<byte>, a: Attributes, size: nat, h: seq<byte>)
    requires |name| == 16 && Fitting(a, size) && h == Header(name, a, size)
    ensures Numbers(h) == Some((a, size)) && NumberOf(h[48..58], 10) == Some(size)
  {
    HeaderParts(name, a, size, h);
    NumberFieldRead(a.date, 10, 12);
    NumberFieldRead(a.uid, 10, 6);
    NumberFieldRead(a.gid, 10, 6);
    NumberFieldRead(a.mode, 8, 8);
    NumberFieldRead(size, 10, 10);
  }

  /** The name can be read from the header, by way of the string table if it is long. */
  ghost predicate Named(name: seq<byte>, place: nat, table: Option<seq<byte>>) {
    || IsShort(name)
    || (IsLong(name) && |Show(place, 10)| <= 15 && table.Some? && NameAt(table.value, place, name))
  }

  /** What is written as a header is read with the same name, attributes and size. */
  lemma HeaderRoundTrip(name: seq<byte>, place: nat, a: Attributes, size: nat, table: Option<seq<byte>>)
    requires Named(name, place, table) && Fitting(a, size)
    ensures ParseHeader(Header(NameField(name, place), a, size), table) == Member(name, a, size)
  {
    var h := Header(NameField(name, place), a, size);
    HeaderParts(NameField(name, place), a, size, h);
    NumbersRead(NameField(name, place), a, size, h);
    if IsShort(name) {
      ShortNameRead(name, place, table);
    } else {
      LongNameRead(name, place, table.value);
    }
  }

  // ----- The string table -----

  /** The long names, each with a slash and a line feed behind it. */
  function TableOf(names: seq<seq<byte>>): seq<byte> {
    if names == [] then []
    else (if IsShort(names[0]) then [] else names[0] + [SLASH, 0x0a]) + TableOf(names[1..])
  }

  function PlaceOf(names: seq<seq<byte>>, k: nat): nat
    requires k <= |names|
  {
    |TableOf(names[..k])|
  }

  lemma {:induction false} TableSplit(names: seq<seq<byte>>, k: nat)
    requires k <= |names|
    ensures TableOf(names) == TableOf(names[..k]) + TableOf(names[k..])
  {
    if k > 0 {
      TableSplit(names[1..], k - 1);
      assert names[1..][..k - 1] == names[..k][1..] && names[1..][k - 1..] == names[k..];
    }
  }

  /** Every long name is in the table, at its place. */
  lemma TableHolds(names: seq<seq<byte>>, k: nat)
    requires k < |names| && !IsShort(names[k])
    ensures NameAt(TableOf(names), PlaceOf(names, k), names[k])
  {
    TableSplit(names, k);
    var front, name, rest := TableOf(names[..k]), names[k], TableOf(names[k + 1..]);
    assert names[k..][1..] == names[k + 1..] && names[k..][0] == name;
    var table := front + (name + [SLASH, 0x0a] + rest);
    assert TableOf(names) == table;
    assert table[|front|..|front| + |name|] == name && table[|front| + |name|] == SLASH;
  }

  // ----- Members one after the other -----

  /** A member as it is written: the name field, the numbers and the contents. */
  datatype Packable = Packable(field: seq<byte>, attributes: Attributes, content: seq<byte>)
  {
    predicate Fits() {
      |field| == 16 && Fitting(attributes, |content|)
    }
  }

  function Packed(p: Packable): (s: seq<byte>)
    requires p.Fits()
    ensures |s| == PackedSize(|p.content|)
  {
    Header(p.field, p.attributes, |p.content|) + p.content + if |p.content| % 2 == 1 then [0x0a] else []
  }

  ghost predicate AllFit(ps: seq<Packable>) {
    forall k {:trigger ps[k]} :: 0 <= k < |ps| ==> ps[k].Fits()
  }

  ghost function PackedAll(ps: seq<Packable>): seq<byte>
    requires AllFit(ps)
  {
    if ps == [] then [] else Packed(ps[0]) + PackedAll(ps[1..])
  }

  /** Where the header of member `k` is, counted from the first. */
  ghost function StartOf(ps: seq<Packable>, k: nat): nat
    requires k <= |ps|
  {
    if k == 0 then 0
    else StartOf(ps, k - 1) + PackedSize(|ps[k - 1].content|)
  }

  lemma {:induction false} StartOfRest(ps: seq<Packable>, k: nat)
    requires 0 < k <= |ps|
    ensures StartOf(ps, k) == PackedSize(|ps[0].content|) + StartOf(ps[1..], k - 1)
  {
    if k > 1 {
      StartOfRest(ps, k - 1);
    }
  }

  lemma {:induction false} PackedLength(ps: seq<Packable>)
    requires AllFit(ps)
    ensures |PackedAll(ps)| == StartOf(ps, |ps|)
  {
    if ps != [] {
      var rest, n := ps[1..], |ps|;
      PackedLength(rest);
      StartOfRest(ps, n);
      assert |PackedAll(ps)| == PackedSize(|ps[0].content|) + |PackedAll(rest)|;
    }
  }

  /** The member `k` of a written archive. */
  lemma {:induction false} PackedAt(ps: seq<Packable>, k: nat, lo: nat, hi: nat)
    requires AllFit(ps) && k < |ps| && lo == StartOf(ps, k) && hi == StartOf(ps, k + 1)
    ensures lo <= hi <= |PackedAll(ps)| && PackedAll(ps)[lo..hi] == Packed(ps[k])
    decreases k
  {
    var first, rest := Packed(ps[0]), PackedAll(ps[1..]);
    if k == 0 {
      assert (first + rest)[0..|first|] == first;
    } else {
      StartOfRest(ps, k);
      StartOfRest(ps, k + 1);
      var lo', hi' := StartOf(ps[1..], k - 1), StartOf(ps[1..], k);
      PackedAt(ps[1..], k - 1, lo', hi');
      DropShift(first, rest, lo', hi', lo, hi);
    }
  }

  /** What is at place `off` of the data: the header of a member and its contents. */
  ghost predicate LiesAt(data: seq<byte>, off: nat, p: Packable) {
    && p.Fits() && off + HEADER_SIZE + |p.content| <= off + PackedSize(|p.content|) <= |data|
    && data[off..off + HEADER_SIZE] == Header(p.field, p.attributes, |p.content|)
    && data[off + HEADER_SIZE..off + HEADER_SIZE + |p.content|] == p.content
  }

  lemma SliceLies(data: seq<byte>, off: nat, end: nat, p: Packable)
    requires p.Fits() && off <= end <= |data| && data[off..end] == Packed(p)
    ensures LiesAt(data, off, p)
  {
    var s, size := Packed(p), |p.content|;
    SliceOfSlice(data, off, end, 0, HEADER_SIZE);
    assert s[0..HEADER_SIZE] == Header(p.field, p.attributes, size);
    SliceOfSlice(data, off, end, HEADER_SIZE, HEADER_SIZE + size);
    assert s[HEADER_SIZE..HEADER_SIZE + size] == p.content;
  }

  lemma MemberLies(ps: seq<Packable>, data: seq<byte>, k: nat, off: nat)
    requires AllFit(ps) && data == Magic() + PackedAll(ps) && k <= |ps| && off == SARMAG + StartOf(ps, k)
    ensures k == |ps| ==> off == |data|
    ensures k < |ps| ==> LiesAt(data, off, ps[k]) && off + PackedSize(|ps[k].content|) == SARMAG + StartOf(ps, k + 1)
  {
    PackedLength(ps);
    if k < |ps| {
      var lo, hi := StartOf(ps, k), StartOf(ps, k + 1);
      PackedAt(ps, k, lo, hi);
      DropShift(Magic(), PackedAll(ps), lo, hi, off, SARMAG + hi);
      SliceLies(data, off, SARMAG + hi, ps[k]);
    }
  }

  // ----- Archives -----

  datatype Entry = Entry(name: seq<byte>, attributes: Attributes, content: seq<byte>)

  function Names(es: seq<Entry>): (ns: seq<seq<byte>>)
    ensures |ns| == |es|
  {
    seq(|es|, k requires 0 <= k < |es| => es[k].name)
  }

  const NO_ATTRIBUTES := Attributes(0, 0, 0, 0)

  /** The name field of the string table: two slashes. */
  function TableField(): (s: seq<byte>)
    ensures |s| == 16
  {
    [SLASH, SLASH] + Blank(14)
  }

  /** The string table, if there is a long name. */
  function TableMember(table: seq<byte>): seq<Packable> {
    if table == [] then [] else [Packable(TableField(), NO_ATTRIBUTES, table)]
  }

  ghost predicate Storable(es: seq<Entry>) {
    && (forall k {:trigger es[k]} :: 0 <= k < |es| ==>
          && (IsShort(es[k].name) || (IsLong(es[k].name) && |Show(PlaceOf(Names(es), k), 10)| <= 15))
          && Fitting(es[k].attributes, |es[k].content|))
    && Fitting(NO_ATTRIBUTES, |TableOf(Names(es))|)
  }

  ghost function Members(es: seq<Entry>): (ps: seq<Packable>)
    requires Storable(es)
    ensures |ps| == |es| && AllFit(ps)
  {
    seq(|es|, k requires 0 <= k < |es| =>
        Packable(NameField(es[k].name, PlaceOf(Names(es), k)), es[k].attributes, es[k].content))
  }

  /** All members of an archive, the string table first. */
  ghost function AllMembers(es: seq<Entry>): (ps: seq<Packable>)
    requires Storable(es)
    ensures AllFit(ps)
  {
    TableMember(TableOf(Names(es))) + Members(es)
  }

  ghost function Archive(es: seq<Entry>): seq<byte>
    requires Storable(es)
  {
    Magic() + PackedAll(AllMembers(es))
  }

  lemma EntryRead(data: seq<byte>, off: nat, p: Packable, name: seq<byte>, place: nat, table: Option<seq<byte>>)
    requires LiesAt(data, off, p) && Named(name, place, table) && p.field == NameField(name, place)
    ensures MemberAt(data, off, table) == Member(name, p.attributes, |p.content|)
  {
    HeaderRoundTrip(name, place, p.attributes, |p.content|, table);
  }

  lemma TableFieldRead(table: Option<seq<byte>>)
    ensures NameOf(TableField(), table) == Name([SLASH, SLASH])
  {
    var s := TableField();
    SpacesPassed(s, 2, 16);
    assert s[..2] == [SLASH, SLASH];
  }

  lemma TableHeader(p: Packable, h: seq<byte>)
    requires p.Fits() && p.field == TableField() && h == Header(p.field, p.attributes, |p.content|)
    ensures h[0] == SLASH && h[1] == SLASH && h[2] == SPACE && h[58..] == HeaderMagic()
    ensures NumberOf(h[48..58], 10) == Some(|p.content|)
  {
    HeaderParts(p.field, p.attributes, |p.content|, h);
    NumbersRead(p.field, p.attributes, |p.content|, h);
    assert h[0] == h[..16][0] && h[1] == h[..16][1] && h[2] == h[..16][2];
  }

  lemma TableRead(data: seq<byte>, off: nat, p: Packable, table: Option<seq<byte>>)
    requires LiesAt(data, off, p) && p.field == TableField()
    ensures MemberAt(data, off, table) == Member([SLASH, SLASH], p.attributes, |p.content|)
  {
    var h := data[off..off + HEADER_SIZE];
    HeaderParts(p.field, p.attributes, |p.content|, h);
    NumbersRead(p.field, p.attributes, |p.content|, h);
    TableFieldRead(table);
    assert ParseHeader(h, table) == Member([SLASH, SLASH], p.attributes, |p.content|);
  }

  lemma TableTaken(data: seq<byte>, off: nat, p: Packable)
    requires LiesAt(data, off, p) && p.field == TableField() && p.content != []
    ensures StringTable(data, off) == Some(p.content)
  {
    TableHeader(p, data[off..off + HEADER_SIZE]);
  }

  lemma NoTable(data: seq<byte>, off: nat, p: Packable, name: seq<byte>, place: nat)
    requires LiesAt(data, off, p) && IsShort(name) && p.field == NameField(name, place)
    ensures StringTable(data, off) == None
  {
    var h := data[off..off + HEADER_SIZE];
    HeaderParts(p.field, p.attributes, |p.content|, h);
    assert h[0] == h[..16][0] == name[0];
  }

  lemma {:induction false} NoLongNames(names: seq<seq<byte>>)
    requires TableOf(names) == []
    ensures forall k :: 0 <= k < |names| ==> IsShort(names[k])
  {
    if names != [] {
      NoLongNames(names[1..]);
    }
  }

  /** The library finds the string table of a written archive, and finds none just if all names are short. */
  lemma TableFound(es: seq<Entry>, data: seq<byte>, table: seq<byte>)
    requires Storable(es) && data == Archive(es) && table == TableOf(Names(es))
    ensures IsArchive(data) && StringTable(data, SARMAG) == if table == [] then None else Some(table)
  {
    var ps := AllMembers(es);
    MemberLies(ps, data, 0, SARMAG);
    if table != [] {
      TableTaken(data, SARMAG, ps[0]);
    } else if es != [] {
      NoLongNames(Names(es));
      assert IsShort(Names(es)[0]);
      NoTable(data, SARMAG, ps[0], es[0].name, PlaceOf(Names(es), 0));
    }
  }

  lemma EntryNamed(es: seq<Entry>, k: nat, table: seq<byte>)
    requires Storable(es) && k < |es| && table == TableOf(Names(es))
    ensures Named(es[k].name, PlaceOf(Names(es), k), if table == [] then None else Some(table))
  {
    if !IsShort(es[k].name) {
      TableHolds(Names(es), k);
      assert Names(es)[k] == es[k].name;
    }
  }

  lemma EntryAt(es: seq<Entry>, ps: seq<Packable>, k: nat, n: nat)
    requires Storable(es) && ps == AllMembers(es) && n == |TableMember(TableOf(Names(es)))| && n <= k < n + |es|
    ensures |ps| == n + |es| && ps[k].field == NameField(es[k - n].name, PlaceOf(Names(es), k - n))
    ensures ps[k].attributes == es[k - n].attributes && ps[k].content == es[k - n].content
  {
    assert ps[k] == Members(es)[k - n];
  }

  /** The walk at a member. */
  lemma EntryWalk(es: seq<Entry>, ps: seq<Packable>, data: seq<byte>, n: nat, k: nat, off: nat,
                  table: Option<seq<byte>>)
    requires Storable(es) && ps == AllMembers(es) && n == |TableMember(TableOf(Names(es)))|
    requires n <= k < n + |es| == |ps|
    requires LiesAt(data, off, ps[k])
    requires table == if TableOf(Names(es)) == [] then None else Some(TableOf(Names(es)))
    ensures var e := es[k - n];
            && MemberAt(data, off, table) == Member(e.name, e.attributes, |e.content|)
            && off + HEADER_SIZE + |e.content| <= |data|
            && data[off + HEADER_SIZE..off + HEADER_SIZE + |e.content|] == e.content
  {
    EntryAt(es, ps, k, n);
    EntryNamed(es, k - n, TableOf(Names(es)));
    EntryRead(data, off, ps[k], es[k - n].name, PlaceOf(Names(es), k - n), table);
  }

  /** Going from header to header through a written archive, by way of the string table that the library finds in it,
      meets the string table if there is one and then every member, in order and with its name, long or short, its
      attributes and its contents, and then the end. */
  lemma ArchiveWalk(es: seq<Entry>, ps: seq<Packable>, data: seq<byte>, n: nat, k: nat, off: nat)
    returns (table: Option<seq<byte>>)
    requires Storable(es) && ps == AllMembers(es) && data == Magic() + PackedAll(ps)
    requires n == |TableMember(TableOf(Names(es)))| && k <= |ps| && off == SARMAG + StartOf(ps, k)
    ensures table == StringTable(data, SARMAG) && |ps| == n + |es|
    ensures k == |ps| ==> MemberAt(data, off, table) == NoMore
    ensures k < n ==> MemberAt(data, off, table) == Member([SLASH, SLASH], NO_ATTRIBUTES, |TableOf(Names(es))|)
    ensures n <= k < |ps| ==>
              var e := es[k - n];
              && MemberAt(data, off, table) == Member(e.name, e.attributes, |e.content|)
              && off + HEADER_SIZE + |e.content| <= |data|
              && data[off + HEADER_SIZE..off + HEADER_SIZE + |e.content|] == e.content
    ensures k < |ps| ==> off + PackedSize(|ps[k].content|) == SARMAG + StartOf(ps, k + 1)
  {
    TableFound(es, data, TableOf(Names(es)));
    table := StringTable(data, SARMAG);
    MemberLies(ps, data, k, off);
    if k < n {
      TableRead(data, off, ps[k], table);
    } else if k < |ps| {
      EntryWalk(es, ps, data, n, k, off, table);
    }
  }
}
