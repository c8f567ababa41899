/**
 The bytes of an archive: magic strings, the places of the numbers in a header, and the characters that end a name.
 */
module ElfArchiveFormat {
  import opened Basics
  import opened ElfArchiveNumbers
  import opened ElfArchiveHeaders
  import opened ElfArchiveWriting

  /** The bytes `text` at `off`. */
  predicate TextAt(data: seq<byte>, off: nat, text: seq<byte>) {
    off + |text| <= |data| && data[off..off + |text|] == text
  }

  /** An archive starts with `!<arch>` and a new line. */
  lemma ArchiveMagic(data: seq<byte>)
    ensures IsArchive(data) <==> TextAt(data, 0, [0x21, 0x3c, 0x61, 0x72, 0x63, 0x68, 0x3e, 0x0a])
  {
    assert |data| >= 8 ==> data[..8] == data[0..8];
  }

  /** A header ends with a back quote and a new line. */
  lemma HeaderEnd(h: seq<byte>)
    requires |h| == 60
    ensures h[58..] == HeaderMagic() <==> TextAt(h, 58, [0x60, 0x0a])
  {
    assert h[58..] == h[58..60];
  }

  // ----- Numbers: 0x30 is the digit zero -----

  function Horner(digits: seq<nat>, base: nat): nat {
    if digits == [] then 0 else base * Horner(digits[..|digits| - 1], base) + digits[|digits| - 1]
  }

  /** `before` spaces, the digits, and spaces behind them. */
  ghost predicate Written(s: seq<byte>, digits: seq<nat>, base: nat, before: nat) {
    && before + |digits| <= |s| && base <= 10
    && (forall i :: 0 <= i < before ==> s[i] == 0x20)
    && (forall i :: 0 <= i < |digits| ==> digits[i] < base && s[before + i] == 0x30 + digits[i])
    && (forall i :: before + |digits| <= i < |s| ==> s[i] == 0x20)
  }

  lemma {:induction false} WrittenValue(s: seq<byte>, digits: seq<nat>, base: nat, before: nat, n: nat)
    requires Written(s, digits, base, before) && n <= |digits|
    ensures Digits(s, before, before + n, base) && Value(s, before, before + n, base) == Horner(digits[..n], base)
    decreases n
  {
    forall i {:trigger s[i]} | before <= i < before + n
      ensures IsDigit(s[i], base)
    {
      assert s[i] == 0x30 + digits[i - before];
    }
    if n > 0 {
      WrittenValue(s, digits, base, before, n - 1);
      assert digits[..n][..n - 1] == digits[..n - 1] && s[before + (n - 1)] == 0x30 + digits[n - 1];
    }
  }

  /** A field of digits with spaces around them is the number with these digits. */
  lemma NumberFormat(s: seq<byte>, digits: seq<nat>, base: nat, before: nat)
    requires Written(s, digits, base, before)
    ensures NumberOf(s, base) == Some(Horner(digits, base))
  {
    var end := before + |digits|;
    WrittenValue(s, digits, base, before, |digits|);
    assert digits[..|digits|] == digits;
    NumberIs(s, base, before, end);
  }

  // ----- Headers -----

  /** The numbers of a header. The mode is octal. */
  ghost predicate NumbersIn(h: seq<byte>, a: Attributes, size: nat)
    requires |h| == 60
  {
    && NumberOf(h[16..28], 10) == Some(a.date) && NumberOf(h[28..34], 10) == Some(a.uid)
    && NumberOf(h[34..40], 10) == Some(a.gid) && NumberOf(h[40..48], 8) == Some(a.mode)
    && NumberOf(h[48..58], 10) == Some(size)
  }

  /** What a header says: a name in its first 16 bytes, five numbers, and a mark at its end. */
  lemma HeaderFormat(h: seq<byte>, table: Option<seq<byte>>, name: seq<byte>, a: Attributes, size: nat)
    requires |h| == 60
    ensures ParseHeader(h, table) == Member(name, a, size) <==>
            TextAt(h, 58, [0x60, 0x0a]) && NameOf(h[..16], table) == Name(name) && NumbersIn(h, a, size)
  {
    HeaderEnd(h);
  }

  /** A header is found where all of its 60 bytes and the bytes that its size claims are there. */
  lemma MemberFormat(data: seq<byte>, off: nat, table: Option<seq<byte>>, m: Member)
    requires m.Member?
    ensures MemberAt(data, off, table) == m <==>
            off + 60 + m.size <= |data| && ParseHeader(data[off..off + 60], table) == m
    ensures MemberAt(data, off, table) == NoMore <==> off == |data|
  {
  }

  /** Why there is no member: not inside, not a whole header, not its mark, or not all of the contents. */
  lemma NoMemberFormat(data: seq<byte>, off: nat, table: Option<seq<byte>>)
    ensures MemberAt(data, off, table) == BadHeader(Outside) <==> off > |data|
    ensures MemberAt(data, off, table) == BadHeader(TruncHeader) <==> off < |data| < off + 60
    ensures MemberAt(data, off, table) == BadHeader(BadMagic) <==>
            off + 60 <= |data| && !TextAt(data, off + 58, [0x60, 0x0a])
    ensures MemberAt(data, off, table) == BadHeader(TruncMember) <==>
            && off + 60 <= |data|
            && var m := ParseHeader(data[off..off + 60], table); m.Member? && off + 60 + m.size > |data|
  {
    if off + 60 <= |data| {
      var h := data[off..off + 60];
      HeaderEnd(h);
      assert h[58..60] == data[off + 58..off + 60];
      NameErrors(h[..16], table);
    }
  }

  lemma NameErrors(s: seq<byte>, table: Option<seq<byte>>)
    requires |s| == 16
    ensures var r := NameOf(s, table);
            r.BadText? ==> r.error == NoStringTable || r.error == BadName
  {
  }

  /** Members start at even places. */
  lemma NextIsEven(size: nat)
    ensures PackedSize(size) % 2 == 0 && 60 + size <= PackedSize(size) <= 61 + size
  {
  }

  // ----- Names: 0x20 is a space, 0x2f a slash -----

  predicate Blanks(s: seq<byte>, from: nat) {
    from <= |s| && forall i :: from <= i < |s| ==> s[i] == 0x20
  }

  /** A name up to 15 bytes long that does not start with a slash, with a slash and spaces behind it. */
  lemma ShortNameFormat(s: seq<byte>, n: nat, table: Option<seq<byte>>)
    requires |s| == 16 && 0 < n <= 15 && s[0] != 0x2f && s[n] == 0x2f && Blanks(s, n + 1)
    ensures NameOf(s, table) == Name(s[..n])
  {
    SpacesPassed(s, n + 1, 16);
  }

  /** The same without the slash. */
  lemma BareNameFormat(s: seq<byte>, n: nat, table: Option<seq<byte>>)
    requires |s| == 16 && 0 < n <= 16 && s[0] != 0x2f && Blanks(s, n)
    requires s[n - 1] != 0x2f && s[n - 1] != 0x20
    ensures NameOf(s, table) == Name(s[..n])
  {
    SpacesPassed(s, n, 16);
  }

  /** A slash and a decimal place in the string table stand for the name there, up to the next slash. */
  lemma LongNameFormat(s: seq<byte>, n: nat, place: nat, end: nat, table: seq<byte>)
    requires |s| == 16 && 1 < n <= 16 && s[0] == 0x2f && 0x30 <= s[1] <= 0x39 && Blanks(s, n)
    requires s[n - 1] != 0x20 && NumberOf(s[1..n], 10) == Some(place)
    requires place <= end < |table| && table[end] == 0x2f && forall i :: place <= i < end ==> table[i] != 0x2f
    ensures NameOf(s, Some(table)) == Name(table[place..end])
  {
    SpacesPassed(s, n, 16);
    NameEnds(table, place, end);
  }

  // ----- The string table -----

  /** A member of at least one byte at `off`, inside the archive, with a number for its size. */
  ghost predicate HasSize(data: seq<byte>, off: nat, size: nat) {
    && off + 60 + size <= |data| && size > 0 && TextAt(data, off + 58, [0x60, 0x0a])
    && NumberOf(data[off + 48..off + 58], 10) == Some(size)
  }

  /** The string table is the member `//`, which may follow symbol tables `/`. */
  lemma StringTableFormat(data: seq<byte>, off: nat, size: nat)
    requires HasSize(data, off, size)
    ensures data[off] != 0x2f ==> StringTable(data, off) == None
    ensures data[off] == 0x2f && data[off + 1] == 0x2f && data[off + 2] == 0x20 ==>
              StringTable(data, off) == Some(data[off + 60..off + 60 + size])
    ensures data[off] == 0x2f && data[off + 1] == 0x20 ==>
              StringTable(data, off) == StringTable(data, off + 60 + size + size % 2)
  {
    var h := data[off..off + 60];
    assert h[0] == data[off] && h[1] == data[off + 1] && h[2] == data[off + 2];
    assert h[48..58] == data[off + 48..off + 58];
    assert h[58..] == data[off + 58..off + 60] == [0x60, 0x0a];
  }
}
